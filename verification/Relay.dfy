/** An image on its way from a camera through the server to a viewer. */
module Relay {
  import opened Bytes
  import opened Cipher
  import opened Images
  import opened Jcamsys
  import opened Wire
  import Crc32
  import Reader
  import Sender

  const INET_ADDRSTRLEN: nat := 16

  predicate ValidImageCam(img: u16, cam: u16)
  {
    img <= JC_MAX_IMAGES && cam <= JC_MAX_CAMS
  }

  datatype Verdict = OutOfRange | Rejected | Accepted

  /** Encrypts and sends an image. */
  method MsgImage(key: Key, im: ImageBuffer, peer: Sender.Peer, sock: Sender.Outlet, docrc: bool, reqid: u16,
      now: u64, sums: Crc32.Checksum)
    returns (r: int)
    requires Cipher.Fits(key) && im.Valid() && sums.Valid()
    modifies im, im.cdata, peer, sock, sums, sums.table
    ensures im.Valid() && im.Value() == Outgoing(key, docrc, old(im.Value())) && sums.Valid()
    ensures peer.sendreqid == Sender.Counter(old(peer.sendreqid), [reqid])
    ensures var m := Sender.Addressed(old(peer.sendreqid), JC_MSG_IMAGE, ImageOctets(im.Value()), reqid, now);
            var t := Sender.Transmitted(m, old(sock.sched));
            && sock.emitted == old(sock.emitted) + t.emitted && sock.sched == t.unused
            && r == if t.r < 0 then -1 else m.reqid
  {
    hide Outgoing, ImageOctets, Sender.Transmitted, Sender.Counter, Sender.Assigned;
    im.Prepare(key, docrc, sums);
    r := Sender.SendMessage(peer, sock, JC_MSG_IMAGE, ImageOctets(im.Value()), reqid, now);
  }

  /** The checksum is looked at only when the receiver wants it and the sender has put one in. */
  predicate Passes(key: Key, docrc: bool, im: Image)
    requires Cipher.Fits(key)
  {
    docrc && im.hdr.crc != 0 ==> im.hdr.crc == Crc32.Crc(0, Plain(key, im))
  }

  /** An address as a C string over an old one. */
  function Address(ip: seq<byte>, before: seq<byte>): (s: seq<byte>)
    requires |ip| < INET_ADDRSTRLEN == |before|
    ensures |s| == INET_ADDRSTRLEN
    ensures s[..|ip|] == ip && s[|ip|] == 0 && s[|ip| + 1..] == before[|ip| + 1..]
  {
    ip + [0] + before[|ip| + 1..]
  }

  /** The image as the server keeps it. */
  function Kept(im: Image, ip: seq<byte>, now: u64): (r: Image)
    requires im.Fits() && |ip| < INET_ADDRSTRLEN
    ensures r.Fits()
  {
    Image(im.hdr.(timestamp := now, sipaddr := Address(ip, im.hdr.sipaddr)), im.data)
  }

  /** What the message buffer holds afterwards, which goes to the archiver when the image is accepted. */
  function Handed(key: Key, docrc: bool, im: Image, now: u64): (r: Image)
    requires Cipher.Fits(key)
    ensures im.Fits() ==> r.Fits()
  {
    var stamped := Image(im.hdr.(timestamp := now), im.data);
    if docrc && im.hdr.crc != 0 then ForcedUncrypted(key, stamped) else stamped
  }

  lemma KeptParts(im: Image, ip: seq<byte>, now: u64)
    requires im.Fits() && |ip| < INET_ADDRSTRLEN
    ensures var kept := Kept(im, ip, now);
            && kept == Image(im.hdr.(timestamp := now, sipaddr := Address(ip, im.hdr.sipaddr)), im.data)
            && kept.hdr == im.hdr.(timestamp := now, sipaddr := kept.hdr.sipaddr)
            && kept.hdr.sipaddr[..|ip|] == ip && kept.hdr.sipaddr[|ip|] == 0
            && kept.hdr.sipaddr[|ip| + 1..] == im.hdr.sipaddr[|ip| + 1..]
  {
    hide Address;
  }

  lemma HandedParts(key: Key, docrc: bool, im: Image, now: u64)
    requires Cipher.Fits(key)
    ensures var stamped, handed := Image(im.hdr.(timestamp := now), im.data), Handed(key, docrc, im, now);
            && handed == (if docrc && im.hdr.crc != 0 then ForcedUncrypted(key, stamped) else stamped)
            && handed.hdr == im.hdr.(timestamp := now, crypted := handed.hdr.crypted)
            && (if docrc && im.hdr.crc != 0
                then && handed.data == Plain(key, im)
                     && handed.hdr.crypted == (if im.hdr.crypted == TRUE then FALSE else im.hdr.crypted)
                else handed.data == im.data && handed.hdr.crypted == im.hdr.crypted)
  {
    hide Crypted;
  }

  class Server {
    const key: Key
    var docrc: bool
    // One more row than the original declares, for the image number that its range check lets through
    const ci: array2<Image>

    ghost predicate Valid()
      reads this, ci
    {
      && Cipher.Fits(key) && ci.Length0 == JC_MAX_IMAGES + 1 && ci.Length1 == JC_MAX_CAMS + 1
      && forall i, c :: 0 <= i <= JC_MAX_IMAGES && 0 <= c <= JC_MAX_CAMS ==> ci[i, c].Fits()
    }

    /** Nothing has been received yet. */
    constructor (key: Key, docrc: bool)
      requires Cipher.Fits(key)
      ensures Valid() && fresh(ci) && this.key == key && this.docrc == docrc
    {
      this.key, this.docrc := key, docrc;
      var blank := ImageHeader(seq(16, _ => 0), seq(33, _ => 0), 0, 0, 0, 0, FALSE, 0, 0, 0, 0, 0, 0, 0);
      ci := new Image[JC_MAX_IMAGES + 1, JC_MAX_CAMS + 1]((i, c) => Image(blank, []));
    }

    /** The image is kept before its checksum is looked at. */
    method OnImage(msgi: ImageBuffer, ip: seq<byte>, now: u64, sums: Crc32.Checksum) returns (verdict: Verdict)
      requires Valid() && msgi.Valid() && sums.Valid() && |ip| < INET_ADDRSTRLEN
      modifies ci, msgi, msgi.cdata, sums, sums.table
      ensures Valid() && msgi.Valid() && sums.Valid()
      ensures var im := old(msgi.Value());
              var there := im.hdr.img <= JC_MAX_IMAGES && im.hdr.cam <= JC_MAX_CAMS;
              && (verdict == OutOfRange <==> !there)
              && (verdict == Accepted <==> there && Passes(key, docrc, im))
              && msgi.Value() == (if there then Handed(key, docrc, im, now) else im)
              && forall i, c :: 0 <= i <= JC_MAX_IMAGES && 0 <= c <= JC_MAX_CAMS ==>
                   ci[i, c] == if i == im.hdr.img && c == im.hdr.cam then Kept(im, ip, now) else old(ci[i, c])
      // the address and the time of arrival in what is kept, and the same time in what goes to the archiver
      ensures var im := old(msgi.Value());
              verdict != OutOfRange ==>
                var hdr := ci[im.hdr.img, im.hdr.cam].hdr;
                && hdr.sipaddr[..|ip|] == ip && hdr.sipaddr[|ip|] == 0 && hdr.timestamp == msgi.hdr.timestamp == now
    {
      hide Crypted, Crc32.Crc, Address, Kept, Handed, Plain, ForcedUncrypted;
      ghost var im := msgi.Value();
      KeptParts(im, ip, now);
      HandedParts(key, docrc, im, now);
      if !ValidImageCam(msgi.hdr.img, msgi.hdr.cam) {
        return OutOfRange;
      }
      msgi.hdr := msgi.hdr.(timestamp := now);
      var kept := msgi.Value();
      kept := Image(kept.hdr.(sipaddr := Address(ip, kept.hdr.sipaddr)), kept.data);
      assert kept == Kept(im, ip, now);
      ci[msgi.hdr.img, msgi.hdr.cam] := kept;
      verdict := Accepted;
      if docrc && msgi.hdr.crc != 0 {
        msgi.ForceUncrypted(key);
        var crc := sums.Compute(0, msgi.cdata[..msgi.hdr.cbytes]);
        if crc != msgi.hdr.crc {
          verdict := Rejected;
        }
      }
    }

    /** Serves a copy of the image that is kept, under the id of the request. */
    method OnRequest(img: u16, cam: u16, reqid: u16, peer: Sender.Peer, sock: Sender.Outlet, now: u64,
        sums: Crc32.Checksum)
      returns (r: int)
      requires Valid() && sums.Valid()
      modifies peer, sock, sums, sums.table
      ensures sums.Valid()
      ensures img > JC_MAX_IMAGES || cam > JC_MAX_CAMS ==> sock.emitted == old(sock.emitted) && r == JC_ERR
      ensures img <= JC_MAX_IMAGES && cam <= JC_MAX_CAMS ==>
                var octets := ImageOctets(Served(key, docrc, ci[img, cam], img, cam));
                var m := Sender.Addressed(old(peer.sendreqid), JC_MSG_IMAGE, octets, reqid, now);
                var t := Sender.Transmitted(m, old(sock.sched));
                && sock.emitted == old(sock.emitted) + t.emitted && sock.sched == t.unused
                && r == (if t.r < 0 then -1 else m.reqid)
                // the id on the wire
                && (Sender.WholeMessage(|octets|, old(sock.sched)) ==>
                      && |t.emitted| >= HEADER_LENGTH
                      && (ParseHeader(t.emitted[..HEADER_LENGTH]).reqid == reqid <==>
                            reqid != 0 || old(peer.sendreqid) == 0xffff))
    {
      if !ValidImageCam(img, cam) {
        return JC_ERR;
      }
      hide Outgoing, ImageOctets, ParseHeader, Sender.Transmitted, Sender.Counter, Sender.Assigned, Sender.WholeMessage;
      ghost var counter, sched := peer.sendreqid, sock.sched;
      var csi := new ImageBuffer(ci[img, cam]);
      csi.hdr := csi.hdr.(img := img, cam := cam);
      r := MsgImage(key, csi, peer, sock, docrc, reqid, now, sums);
      ghost var octets := ImageOctets(Served(key, docrc, ci[img, cam], img, cam));
      if Sender.WholeMessage(|octets|, sched) {
        Sender.AnswerCarriesIdOfRequest(counter, JC_MSG_IMAGE, octets, reqid, now, sched);
      }
    }
  }

  /** The image as the server sends it on. */
  function Served(key: Key, docrc: bool, kept: Image, img: u16, cam: u16): (r: Image)
    requires Cipher.Fits(key) && kept.Fits()
    ensures r.Fits()
  {
    Outgoing(key, docrc, Image(kept.hdr.(img := img, cam := cam), kept.data))
  }

  /** The viewer decrypts in place and leaves the flag as it is. */
  method OnImageViewed(key: Key, msgi: ImageBuffer, sums: Crc32.Checksum) returns (verdict: Verdict)
    requires Cipher.Fits(key) && msgi.Valid() && sums.Valid()
    modifies msgi.cdata, sums, sums.table
    ensures msgi.Valid() && sums.Valid()
    ensures var im := old(msgi.Value());
            && (verdict == OutOfRange <==> im.hdr.img > JC_MAX_IMAGES || im.hdr.cam > JC_MAX_CAMS)
            && (verdict == Accepted <==> verdict != OutOfRange && Passes(key, true, im))
            && msgi.Value() == if verdict == OutOfRange then im else Image(im.hdr, Plain(key, im))
  {
    hide Crypted, Crc32.Crc;
    if !ValidImageCam(msgi.hdr.img, msgi.hdr.cam) {
      return OutOfRange;
    }
    if msgi.hdr.crypted == TRUE {
      var n := CryptBuf(key, msgi.cdata, msgi.hdr.cbytes);
    }
    if msgi.hdr.crc != 0 {
      var crc := sums.Compute(0, msgi.cdata[..msgi.hdr.cbytes]);
      if msgi.hdr.crc != crc {
        return Rejected;
      }
    }
    verdict := Accepted;
  }

  // ---- the whole way ----

  /** However often an image is sent, what it shows to the owner of the key stays the same. */
  lemma OutgoingShowsTheSame(key: Key, docrc: bool, im: Image)
    requires Cipher.Fits(key)
    ensures Plain(key, Outgoing(key, docrc, im)) == Plain(key, im)
    ensures Passes(key, true, Outgoing(key, docrc, im))
  {
    CryptedTwice(key, Plain(key, im));
  }

  /** Every image that is sent carries the encryption flag; whatever the image, the flag tells the truth
      exactly when the key is usable, unless the key is all zeros. */
  lemma FlagIsHonestIff(key: Key, docrc: bool, z: nat)
    requires Cipher.Fits(key) && z < key.keylength && key.xorkey[z] != 0
    ensures Usable(key) <==> forall im: Image :: Outgoing(key, docrc, im).data == Xored(key, Plain(key, im))
    ensures forall im: Image :: Outgoing(key, docrc, im).hdr.crypted == TRUE
  {
    hide Crc32.Crc, Xored;
    if !Usable(key) {
      var zeros := seq(z + 1, _ => 0);
      ZerosShowTheKey(key, z, zeros);
      var im := Image(ImageHeader([], [], 0, 0, 0, 0, FALSE, 0, 0, 0, 0, 0, 0, 0), zeros);
      assert Plain(key, im) == zeros && Outgoing(key, docrc, im).data == zeros;
    }
  }

  lemma ZerosShowTheKey(key: Key, z: nat, zeros: seq<byte>)
    requires Cipher.Fits(key) && z < key.keylength && key.xorkey[z] != 0
    requires |zeros| == z + 1 && zeros[z] == 0
    ensures Xored(key, zeros) != zeros
  {
    NoTurn(z, key.keylength);
    assert Xored(key, zeros)[z] == 0 ^ key.xorkey[z];
  }

  /** The viewer's image with its flag read again: the flag is true of what the viewer holds, whatever the
      picture, exactly when there was nothing to decrypt. */
  lemma ViewedFlagIsHonestIff(key: Key, hdr: ImageHeader, z: nat)
    requires Cipher.Fits(key) && z < key.keylength && key.xorkey[z] != 0
    ensures (forall data :: ViewedShowsTheSame(key, hdr, data)) <==> hdr.crypted != TRUE || !Usable(key)
  {
    hide Xored;
    if hdr.crypted == TRUE && Usable(key) {
      var zeros := seq(z + 1, _ => 0);
      ZerosShowTheKey(key, z, zeros);
      CryptedTwice(key, zeros);
      assert !ViewedShowsTheSame(key, hdr, zeros);
    }
  }

  predicate ViewedShowsTheSame(key: Key, hdr: ImageHeader, data: seq<byte>)
    requires Cipher.Fits(key)
  {
    var plain := Plain(key, Image(hdr, data));
    Plain(key, Image(hdr, plain)) == plain
  }

  /** The archive gets plain pictures, whatever the picture, exactly when a checksum was looked at or there was
      nothing to decrypt. */
  lemma ArchivedIsPlainIff(key: Key, docrc: bool, hdr: ImageHeader, now: u64, z: nat)
    requires Cipher.Fits(key) && z < key.keylength && key.xorkey[z] != 0
    ensures (forall data :: ArchivesPlain(key, docrc, hdr, data, now)) <==>
              (docrc && hdr.crc != 0) || hdr.crypted != TRUE || !Usable(key)
  {
    hide Xored;
    if !(docrc && hdr.crc != 0) && hdr.crypted == TRUE && Usable(key) {
      var zeros := seq(z + 1, _ => 0);
      ZerosShowTheKey(key, z, zeros);
      assert !ArchivesPlain(key, docrc, hdr, zeros, now);
    }
  }

  predicate ArchivesPlain(key: Key, docrc: bool, hdr: ImageHeader, data: seq<byte>, now: u64)
    requires Cipher.Fits(key)
  {
    Handed(key, docrc, Image(hdr, data), now).data == Plain(key, Image(hdr, data))
  }

  /** A receiver takes the message for an image exactly when header and data stay below the limit. */
  lemma ImageIsSendableIff(im: Image, reqid: u16, now: u64)
    requires im.Fits()
    ensures Sendable(Message(JC_MSG_IMAGE, reqid, now, ImageOctets(im))) <==>
            im.hdr.cbytes + IMAGE_HEADER_LENGTH < JC_MAX_MSGLEN
  {
  }

  /** A receiver that finds the message at the start of its buffer sees the image, whatever is behind it. */
  lemma ImageInBuffer(im: Image, buf: seq<byte>)
    requires im.Fits() && ImageOctets(im) <= buf
    ensures ParseImage(buf) == im
  {
    var s := ImageOctets(im);
    ImageSurvives(im);
    assert buf[..|s|] == s;
    assert buf[..57] == s[..57] && buf[57..81] == s[57..81];
    hide ParseImageHeader, Front, Back;
    assert ParseImage(s).hdr == im.hdr;
    assert buf[81..81 + im.hdr.cbytes] == s[81..] == im.data;
  }

  /** From the camera through the server to the viewer: every check passes and the viewer sees the
      picture that the camera took, for any key and any choice of checksums on the two hops. */
  lemma EndToEnd(key: Key, docrcCamera: bool, docrcServer: bool, im: Image, ip: seq<byte>, now: u64, img: u16, cam: u16)
    requires Cipher.Fits(key) && im.Fits() && |ip| < INET_ADDRSTRLEN
    ensures var atServer := ParseImage(ImageOctets(Outgoing(key, docrcCamera, im)));
            && atServer.Fits() && Passes(key, docrcServer, atServer)
            && var atViewer := ParseImage(ImageOctets(Served(key, docrcServer, Kept(atServer, ip, now), img, cam)));
            && atViewer.Fits() && Passes(key, true, atViewer)
            && Plain(key, atViewer) == Plain(key, im)
            && atViewer.hdr == im.hdr.(sipaddr := Address(ip, im.hdr.sipaddr), timestamp := now, img := img,
               cam := cam, crypted := TRUE,
                                       crc := if docrcServer then Crc32.Crc(0, Plain(key, im)) else 0)
            // the address that the server has noted
            && atViewer.hdr.sipaddr[..|ip|] == ip && atViewer.hdr.sipaddr[|ip|] == 0
            && atViewer.hdr.sipaddr[|ip| + 1..] == im.hdr.sipaddr[|ip| + 1..]
  {
    var sent := Outgoing(key, docrcCamera, im);
    ImageSurvives(sent);
    OutgoingShowsTheSame(key, docrcCamera, im);
    var kept := Kept(sent, ip, now);
    var copy := Image(kept.hdr.(img := img, cam := cam), kept.data);
    assert Plain(key, copy) == Plain(key, sent);
    OutgoingShowsTheSame(key, docrcServer, copy);
    ImageSurvives(Served(key, docrcServer, kept, img, cam));
  }

  /** One message over a connection with any arrivals, interruptions and timeouts. */
  method ReceiveOne(octets: seq<byte>, ghost m: Message, ticks: seq<Reader.Tick>, calls: nat, timeoutms: int)
    returns (payload: seq<byte>)
    requires Sendable(m) && octets == Frame(m)
    requires Reader.Arrivals(ticks) >= |octets| && calls > |ticks|
    ensures payload == m.payload
  {
    hide Frame;
    var sock := new Reader.Socket(octets, ticks);
    var reader := new Reader.MessageReader([m], []);
    var buf := new byte[JC_MAX_MSGLEN];
    assert Reader.Rest([m], 1) == [];
    assert sock.Pending() + reader.lost == Reader.Rest([m], 0);
    hide Reader.Rest;
    var got, code := Reader.ReceiveAll(reader, sock, buf, calls, timeoutms);
    payload := got[0].payload;
  }

  /** The image as it goes out is as long as before. */
  lemma OutgoingKeepsLength(key: Key, docrc: bool, im: Image)
    requires Cipher.Fits(key) && im.Fits()
    ensures |ImageOctets(Outgoing(key, docrc, im))| == IMAGE_HEADER_LENGTH + im.hdr.cbytes
    ensures ParseImage(ImageOctets(Outgoing(key, docrc, im))) == Outgoing(key, docrc, im)
  {
    ImageSurvives(Outgoing(key, docrc, im));
  }

  /** From a camera into a message buffer of the server. */
  method FromCamera(
      key: Key, camera: ImageBuffer, docrc: bool, peer: Sender.Peer, sock: Sender.Outlet,
      ticks: seq<Reader.Tick>, calls: nat, timeoutms: int, now: u64, sums: Crc32.Checksum)
    returns (msgi: ImageBuffer)
    requires Cipher.Fits(key) && camera.Valid() && sums.Valid()
    requires IMAGE_HEADER_LENGTH + camera.hdr.cbytes < JC_MAX_MSGLEN
    requires Sender.WholeMessage(IMAGE_HEADER_LENGTH + camera.hdr.cbytes, sock.sched)
    requires Reader.Arrivals(ticks) >= HEADER_LENGTH + IMAGE_HEADER_LENGTH + camera.hdr.cbytes && calls > |ticks|
    modifies camera, camera.cdata, peer, sock, sums, sums.table
    ensures sums.Valid() && fresh(msgi) && fresh(msgi.cdata) && msgi.Valid()
    ensures msgi.Value() == Outgoing(key, docrc, old(camera.Value()))
  {
    hide Outgoing, ImageOctets, ParseImage, Frame, Sender.Transmitted, Sender.WholeMessage, Sender.Assigned,
        Reader.Arrivals;
    var before := sock.emitted;
    ghost var sent := Outgoing(key, docrc, camera.Value());
    OutgoingKeepsLength(key, docrc, camera.Value());
    ghost var m := Sender.Addressed(peer.sendreqid, JC_MSG_IMAGE, ImageOctets(sent), 0, now);
    Sender.WholeMessageIsFramed(m, sock.sched);
    var r := MsgImage(key, camera, peer, sock, docrc, 0, now, sums);
    assert sock.emitted[|before|..] == Frame(m);
    var payload := ReceiveOne(sock.emitted[|before|..], m, ticks, calls, timeoutms);
    msgi := new ImageBuffer(ParseImage(payload));
  }

  /** From the server into a message buffer of a viewer. */
  method FromServer(
      server: Server, img: u16, cam: u16, reqid: u16, peer: Sender.Peer, sock: Sender.Outlet,
      ticks: seq<Reader.Tick>, calls: nat, timeoutms: int, now: u64, sums: Crc32.Checksum)
    returns (msgi: ImageBuffer)
    requires server.Valid() && sums.Valid() && ValidImageCam(img, cam)
    requires IMAGE_HEADER_LENGTH + server.ci[img, cam].hdr.cbytes < JC_MAX_MSGLEN
    requires Sender.WholeMessage(IMAGE_HEADER_LENGTH + server.ci[img, cam].hdr.cbytes, sock.sched)
    requires Reader.Arrivals(ticks) >= HEADER_LENGTH + IMAGE_HEADER_LENGTH + server.ci[img, cam].hdr.cbytes
    requires calls > |ticks|
    modifies peer, sock, sums, sums.table
    ensures sums.Valid() && fresh(msgi) && fresh(msgi.cdata) && msgi.Valid()
    ensures msgi.Value() == Served(server.key, server.docrc, server.ci[img, cam], img, cam)
  {
    hide Outgoing, ImageOctets, ParseImage, ParseHeader, Frame;
    hide Sender.Transmitted, Sender.WholeMessage, Sender.Assigned, Reader.Arrivals;
    var before := sock.emitted;
    var kept := server.ci[img, cam];
    OutgoingKeepsLength(server.key, server.docrc, Image(kept.hdr.(img := img, cam := cam), kept.data));
    ghost var octets := ImageOctets(Served(server.key, server.docrc, kept, img, cam));
    ghost var m := Sender.Addressed(peer.sendreqid, JC_MSG_IMAGE, octets, reqid, now);
    Sender.WholeMessageIsFramed(m, sock.sched);
    var r := server.OnRequest(img, cam, reqid, peer, sock, now, sums);
    assert sock.emitted[|before|..] == Frame(m);
    var payload := ReceiveOne(sock.emitted[|before|..], m, ticks, calls, timeoutms);
    msgi := new ImageBuffer(ParseImage(payload));
  }

  /** A picture on its way: the camera sends it, the server reads, keeps and checks it, and serves it on
      request, and the viewer reads, decrypts and checks it. Without short writes, and if everything arrives
      some time, all checks pass and the viewer shows the picture that the camera took. */
  method Journey(
      camera: ImageBuffer, docrc: bool, cameraPeer: Sender.Peer, cameraSock: Sender.Outlet,
      server: Server, ip: seq<byte>, serverPeer: Sender.Peer, serverSock: Sender.Outlet, reqid: u16,
      ticks: seq<Reader.Tick>, ticks': seq<Reader.Tick>, calls: nat, timeoutms: int, now: u64, sums: Crc32.Checksum)
    returns (atServer: Verdict, atViewer: Verdict, shown: seq<byte>)
    requires camera.Valid() && server.Valid() && sums.Valid() && |ip| < INET_ADDRSTRLEN && cameraSock != serverSock
    requires ValidImageCam(camera.hdr.img, camera.hdr.cam)
    requires IMAGE_HEADER_LENGTH + camera.hdr.cbytes < JC_MAX_MSGLEN
    requires Sender.WholeMessage(IMAGE_HEADER_LENGTH + camera.hdr.cbytes, cameraSock.sched)
    requires Sender.WholeMessage(IMAGE_HEADER_LENGTH + camera.hdr.cbytes, serverSock.sched)
    requires Reader.Arrivals(ticks) >= HEADER_LENGTH + IMAGE_HEADER_LENGTH + camera.hdr.cbytes && calls > |ticks|
    requires Reader.Arrivals(ticks') >= HEADER_LENGTH + IMAGE_HEADER_LENGTH + camera.hdr.cbytes && calls > |ticks'|
    modifies camera, camera.cdata, cameraPeer, cameraSock, server.ci, serverPeer, serverSock, sums, sums.table
    ensures atServer == Accepted && atViewer == Accepted && shown == Plain(server.key, old(camera.Value()))
  {
    hide ImageOctets, ParseImage, Plain, Passes, Address, Crc32.Crc, Handed;
    hide Sender.WholeMessage, Reader.Arrivals;
    ghost var picture := camera.Value();
    var img, cam := camera.hdr.img, camera.hdr.cam;
    EndToEnd(server.key, docrc, server.docrc, picture, ip, now, img, cam);
    OutgoingKeepsLength(server.key, docrc, picture);
    var msgi := FromCamera(server.key, camera, docrc, cameraPeer, cameraSock, ticks, calls, timeoutms, now, sums);
    atServer := server.OnImage(msgi, ip, now, sums);
    ghost var kept := server.ci[img, cam];
    OutgoingKeepsLength(server.key, server.docrc, Image(kept.hdr.(img := img, cam := cam), kept.data));
    var msgi' := FromServer(server, img, cam, reqid, serverPeer, serverSock, ticks', calls, timeoutms, now, sums);
    atViewer := OnImageViewed(server.key, msgi', sums);
    shown := msgi'.Value().data;
  }

  // ---- damage on the way ----

  /** Two strings of octets of one length that differ, but only inside 32 consecutive bits. */
  ghost predicate Burst(a: seq<byte>, b: seq<byte>, p: nat)
  {
    && |a| == |b| && a != b
    && forall i :: 0 <= i < 8 * |a| && !(p <= i < p + 32) ==> Crc32.Message(a)[i] == Crc32.Message(b)[i]
  }

  function XorOctet(a: byte, b: byte): byte { a ^ b }

  function XorOctets(s: seq<byte>, t: seq<byte>): (r: seq<byte>)
    requires |s| == |t|
    ensures |r| == |s|
  {
    if s == [] then [] else [XorOctet(s[0], t[0])] + XorOctets(s[1..], t[1..])
  }

  lemma {:induction false} XorOctetsAt(s: seq<byte>, t: seq<byte>, i: nat)
    requires |s| == |t| && i < |s|
    ensures XorOctets(s, t)[i] == XorOctet(s[i], t[i])
  {
    if i > 0 {
      XorOctetsAt(s[1..], t[1..], i - 1);
    }
  }

  function KeyStream(key: Key, n: nat): (t: seq<byte>)
    requires Cipher.Fits(key) && key.keylength > 0
    ensures |t| == n
  {
    seq(n, i requires 0 <= i < n => KeyAt(key, i))
  }

  lemma XoredIsXorOctets(key: Key, s: seq<byte>)
    requires Cipher.Fits(key) && key.keylength > 0
    ensures Xored(key, s) == XorOctets(s, KeyStream(key, |s|))
  {
    hide KeyAt;
    forall i | 0 <= i < |s|
      ensures Xored(key, s)[i] == XorOctets(s, KeyStream(key, |s|))[i]
    {
      XorOctetsAt(s, KeyStream(key, |s|), i);
    }
  }

  lemma OctetOfSum(a: byte, b: byte)
    ensures (a ^ b) as bv32 == Crc32.Sum(a as bv32, b as bv32)
  {
  }

  function OctetBits(o: byte): (b: Crc32.Bits)
    ensures |b| == 8
  {
    Crc32.BitsOf(o as bv32, 8)
  }

  lemma OctetBitsOfXor(a: byte, b: byte, i: nat)
    requires i < 8
    ensures OctetBits(XorOctet(a, b))[i] == (OctetBits(a)[i] != OctetBits(b)[i])
  {
    hide Crc32.BitsOf, Crc32.Sum;
    OctetOfSum(a, b);
    Crc32.BitsOfSum(a as bv32, b as bv32, 8, i);
  }

  lemma MessageAt(s: seq<byte>, i: nat)
    requires i < 8 * |s|
    ensures Crc32.Message(s)[i] == if i < 8 then OctetBits(s[0])[i] else Crc32.Message(s[1..])[i - 8]
  {
    hide Crc32.BitsOf;
  }

  lemma XorOctetsRest(s: seq<byte>, t: seq<byte>)
    requires |s| == |t| && s != []
    ensures XorOctets(s, t)[1..] == XorOctets(s[1..], t[1..])
  {
  }

  lemma MessageOfXorStart(s: seq<byte>, t: seq<byte>, i: nat)
    requires |s| == |t| && i < 8 * |s| && i < 8
    ensures Crc32.Message(XorOctets(s, t))[i] == (Crc32.Message(s)[i] != Crc32.Message(t)[i])
  {
    hide *;
    var x := XorOctets(s, t);
    XorOctetsAt(s, t, 0);
    MessageAt(s, i);
    MessageAt(t, i);
    MessageAt(x, i);
    OctetBitsOfXor(s[0], t[0], i);
  }

  lemma {:induction false} MessageOfXor(s: seq<byte>, t: seq<byte>, i: nat)
    requires |s| == |t| && i < 8 * |s|
    ensures Crc32.Message(XorOctets(s, t))[i] == (Crc32.Message(s)[i] != Crc32.Message(t)[i])
  {
    if i < 8 {
      MessageOfXorStart(s, t, i);
    } else {
      XorOctetsRest(s, t);
      hide *;
      MessageAt(s, i);
      MessageAt(t, i);
      MessageAt(XorOctets(s, t), i);
      MessageOfXor(s[1..], t[1..], i - 8);
    }
  }

  lemma XorKeepsBurst(a: seq<byte>, b: seq<byte>, t: seq<byte>, p: nat)
    requires Burst(a, b, p) && |t| == |a|
    ensures forall i :: 0 <= i < 8 * |a| && !(p <= i < p + 32) ==>
            Crc32.Message(XorOctets(a, t))[i] == Crc32.Message(XorOctets(b, t))[i]
  {
    hide Crc32.Message, XorOctets;
    forall i | 0 <= i < 8 * |a| && !(p <= i < p + 32)
      ensures Crc32.Message(XorOctets(a, t))[i] == Crc32.Message(XorOctets(b, t))[i]
    {
      MessageOfXor(a, t, i);
      MessageOfXor(b, t, i);
    }
  }

  /** Encryption moves no bit: a burst in the encrypted data is a burst in the plain data. */
  lemma CryptedKeepsBurst(key: Key, a: seq<byte>, b: seq<byte>, p: nat)
    requires Cipher.Fits(key) && Burst(a, b, p)
    ensures Burst(Crypted(key, a), Crypted(key, b), p)
  {
    CryptedTwice(key, a);
    CryptedTwice(key, b);
    if Usable(key) {
      XoredIsXorOctets(key, a);
      XoredIsXorOctets(key, b);
      XorKeepsBurst(a, b, KeyStream(key, |a|), p);
      hide XorOctets;
      assert Crypted(key, a) != Crypted(key, b);
    }
  }

  /** An image whose data was hit by a burst of up to 32 bits on the way is taken
      exactly when its receiver does not look at the checksum. */
  lemma BurstPassesIff(key: Key, docrc: bool, sent: Image, hit: Image, p: nat)
    requires Cipher.Fits(key) && sent.hdr == hit.hdr && Burst(sent.data, hit.data, p)
    requires Passes(key, true, sent)
    ensures Passes(key, docrc, hit) <==> !docrc || sent.hdr.crc == 0
  {
    if sent.hdr.crc != 0 {
      CryptedKeepsBurst(key, sent.data, hit.data, p);
      Crc32.BurstDetected(0, Plain(key, sent), Plain(key, hit), p);
    }
  }

  /** The server keeps an image before it checks it, and a fresh checksum is made when it is served:
      so a viewer takes any image that the server has rejected, and shows what the server rejected. */
  lemma RejectedImageIsServed(key: Key, docrc: bool, hit: Image, ip: seq<byte>, now: u64, img: u16, cam: u16)
    requires Cipher.Fits(key) && hit.Fits() && |ip| < INET_ADDRSTRLEN
    ensures var atViewer := ParseImage(ImageOctets(Served(key, docrc, Kept(hit, ip, now), img, cam)));
            Passes(key, true, atViewer) && Plain(key, atViewer) == Plain(key, hit)
  {
    var kept := Kept(hit, ip, now);
    var copy := Image(kept.hdr.(img := img, cam := cam), kept.data);
    OutgoingShowsTheSame(key, docrc, copy);
    ImageSurvives(Served(key, docrc, kept, img, cam));
  }

  /** Behind a server that keeps before it checks, the viewer accepts in any case, and shows the picture that
      was sent exactly when no octet of it was damaged on the way to the server. */
  lemma ShownIsSentIff(
      key: Key, docrc: bool, sent: Image, hit: Image, ip: seq<byte>, now: u64, img: u16, cam: u16)
    requires Cipher.Fits(key) && sent.hdr == hit.hdr && hit.Fits() && |ip| < INET_ADDRSTRLEN
    ensures var atViewer := ParseImage(ImageOctets(Served(key, docrc, Kept(hit, ip, now), img, cam)));
            Passes(key, true, atViewer) && (Plain(key, atViewer) == Plain(key, sent) <==> hit.data == sent.data)
  {
    RejectedImageIsServed(key, docrc, hit, ip, now, img, cam);
    CryptedTwice(key, hit.data);
    CryptedTwice(key, sent.data);
    hide Crypted, Served, Kept, ParseImage, ImageOctets;
  }
}
