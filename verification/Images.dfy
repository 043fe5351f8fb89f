/** Images as messages: the packed structure, encryption and checksum on the way out. */
module Images {
  import opened Bytes
  import opened Cipher
  import opened Wire
  import Crc32
  import Rfc1321

  const JC_MSG_IMAGE: u16 := 200
  const TRUE: byte := 1
  const FALSE: byte := 0

  datatype ImageHeader = ImageHeader(
    sipaddr: seq<byte>, sid: seq<byte>, img: u16, cam: u16, quality: byte, imageType: u16, crypted: byte,
    crc: Crc32.Word, cbytes: u32, width: u16, height: u16, frameNumber: u16, updateRateMs: u16, timestamp: u64)
  {
    predicate Fits()
    {
      |sipaddr| == 16 && |sid| == 33 && cbytes <= JC_MAX_COMP_IMAGESIZE
    }
  }

  const IMAGE_HEADER_LENGTH: nat := 81

  /** The members up to the encryption flag. */
  function Front(h: ImageHeader): (s: seq<byte>)
    requires h.Fits()
    ensures |s| == 57
  {
    h.sipaddr + h.sid + LittleEndian(h.img, 2) + LittleEndian(h.cam, 2) + [h.quality] +
        LittleEndian(h.imageType, 2) + [h.crypted]
  }

  function Back(h: ImageHeader): (s: seq<byte>)
    requires h.Fits()
    ensures |s| == 24
  {
    Rfc1321.OctetsOf(h.crc) + LittleEndian(h.cbytes, 4) + LittleEndian(h.width, 2) + LittleEndian(h.height, 2)
    + LittleEndian(h.frameNumber, 2) + LittleEndian(h.updateRateMs, 2) + LittleEndian(h.timestamp, 8)
  }

  function ParseImageHeader(f: seq<byte>, b: seq<byte>): (h: ImageHeader)
    requires |f| == 57 && |b| == 24
  {
    Powers();
    ImageHeader(f[..16], f[16..49], FromLittleEndian(f[49..51]), FromLittleEndian(f[51..53]), f[53],
                FromLittleEndian(f[54..56]), f[56], Rfc1321.WordAt(b, 0), FromLittleEndian(b[4..8]),
                FromLittleEndian(b[8..10]), FromLittleEndian(b[10..12]),
                FromLittleEndian(b[12..14]), FromLittleEndian(b[14..16]), FromLittleEndian(b[16..24]))
  }

  lemma WordSurvives(w: Crc32.Word)
    ensures Rfc1321.WordAt(Rfc1321.OctetsOf(w), 0) == w
  {
  }

  lemma FrontFields(h: ImageHeader)
    requires h.Fits()
    ensures var f := Front(h);
            && f[..16] == h.sipaddr && f[16..49] == h.sid && f[49..51] == LittleEndian(h.img, 2) &&
               f[51..53] == LittleEndian(h.cam, 2)
            && f[53] == h.quality && f[54..56] == LittleEndian(h.imageType, 2) && f[56] == h.crypted
  {
    hide LittleEndian;
  }

  lemma BackFields(h: ImageHeader)
    requires h.Fits()
    ensures var b := Back(h);
            && b[..4] == Rfc1321.OctetsOf(h.crc) && b[4..8] == LittleEndian(h.cbytes, 4) &&
               b[8..10] == LittleEndian(h.width, 2)
            && b[10..12] == LittleEndian(h.height, 2) && b[12..14] == LittleEndian(h.frameNumber, 2)
            && b[14..16] == LittleEndian(h.updateRateMs, 2) && b[16..24] == LittleEndian(h.timestamp, 8)
  {
    hide LittleEndian, Rfc1321.OctetsOf;
    assert |Back(h)| == 24 && Back(h)[16..] == LittleEndian(h.timestamp, 8);
  }

  lemma WordInside(b: seq<byte>, w: seq<byte>)
    requires |w| == 4 <= |b| && b[..4] == w
    ensures Rfc1321.WordAt(b, 0) == Rfc1321.WordAt(w, 0)
  {
    hide Rfc1321.WordOf;
    assert forall i :: 0 <= i < 4 ==> b[i] == b[..4][i];
  }

  lemma ImageHeaderSurvives(h: ImageHeader)
    requires h.Fits()
    ensures ParseImageHeader(Front(h), Back(h)) == h
  {
    Powers();
    hide LittleEndian, FromLittleEndian, Power256, Rfc1321.OctetsOf, Rfc1321.WordAt;
    NumberSurvives(h.img, 2);
    NumberSurvives(h.cam, 2);
    NumberSurvives(h.imageType, 2);
    NumberSurvives(h.cbytes, 4);
    NumberSurvives(h.width, 2);
    NumberSurvives(h.height, 2);
    NumberSurvives(h.frameNumber, 2);
    NumberSurvives(h.updateRateMs, 2);
    NumberSurvives(h.timestamp, 8);
    FrontFields(h);
    BackFields(h);
    WordInside(Back(h), Rfc1321.OctetsOf(h.crc));
    WordSurvives(h.crc);
    hide Front, Back;
  }

  /** An image: the header and the octets in use. */
  datatype Image = Image(hdr: ImageHeader, data: seq<byte>)
  {
    predicate Fits()
    {
      hdr.Fits() && hdr.cbytes == |data|
    }
  }

  function ImageOctets(im: Image): (s: seq<byte>)
    requires im.Fits()
    ensures |s| == IMAGE_HEADER_LENGTH + |im.data|
  {
    Front(im.hdr) + Back(im.hdr) + im.data
  }

  /** The structure laid over the octets of a message; what the message lacks is not part of the model. */
  function ParseImage(s: seq<byte>): (im: Image)
    requires |s| >= IMAGE_HEADER_LENGTH
  {
    var h := ParseImageHeader(s[..57], s[57..81]);
    Image(h, if 81 + h.cbytes <= |s| then s[81..81 + h.cbytes] else s[81..])
  }

  lemma ImageSurvives(im: Image)
    requires im.Fits()
    ensures ParseImage(ImageOctets(im)) == im
  {
    var s := ImageOctets(im);
    hide Front, Back, ParseImageHeader;
    assert s[..57] == Front(im.hdr) && s[57..81] == Back(im.hdr) && s[81..] == im.data;
    ImageHeaderSurvives(im.hdr);
  }

  // ---- encryption and checksum ----

  /** What the image shows to somebody who has the key. */
  function Plain(key: Key, im: Image): (s: seq<byte>)
    requires Cipher.Fits(key)
    ensures |s| == |im.data|
  {
    if im.hdr.crypted == TRUE then Crypted(key, im.data) else im.data
  }

  function ForcedCrypted(key: Key, im: Image): (r: Image)
    requires Cipher.Fits(key)
    ensures im.Fits() ==> r.Fits()
  {
    if im.hdr.crypted == TRUE then im else Image(im.hdr.(crypted := TRUE), Crypted(key, im.data))
  }

  function ForcedUncrypted(key: Key, im: Image): (r: Image)
    requires Cipher.Fits(key)
    ensures im.Fits() ==> r.Fits()
  {
    if im.hdr.crypted != TRUE then im else Image(im.hdr.(crypted := FALSE), Crypted(key, im.data))
  }

  /** The image as it goes out. */
  function Outgoing(key: Key, docrc: bool, im: Image): (r: Image)
    requires Cipher.Fits(key)
    ensures im.Fits() ==> r.Fits()
  {
    Image(im.hdr.(crypted := TRUE, crc := if docrc then Crc32.Crc(0, Plain(key, im)) else 0),
        Crypted(key, Plain(key, im)))
  }

  /** Forcing changes the flag and how the picture is held, but not what it shows. */
  lemma ForcedShowsTheSame(key: Key, im: Image)
    requires Cipher.Fits(key)
    ensures var crypted, plain := ForcedCrypted(key, im), ForcedUncrypted(key, im);
            && Plain(key, crypted) == Plain(key, plain) == plain.data == Plain(key, im)
            && crypted.hdr == im.hdr.(crypted := TRUE)
            && plain.hdr == im.hdr.(crypted := if im.hdr.crypted == TRUE then FALSE else im.hdr.crypted)
  {
    CryptedTwice(key, im.data);
    hide Crypted;
  }

  /** An image in memory that is changed in place. */
  class ImageBuffer {
    var hdr: ImageHeader
    const cdata: array<byte>

    ghost predicate Valid()
      reads this
    {
      hdr.Fits() && cdata.Length == JC_MAX_COMP_IMAGESIZE
    }

    function Value(): (im: Image)
      requires Valid()
      reads this, cdata
      ensures im.Fits()
    {
      Image(hdr, cdata[..hdr.cbytes])
    }

    /** Takes over the header and as many octets as are in use. */
    constructor (im: Image)
      requires im.Fits()
      ensures Valid() && Value() == im && fresh(cdata)
    {
      hdr := im.hdr;
      cdata := new byte[JC_MAX_COMP_IMAGESIZE];
      new;
      forall i | 0 <= i < im.hdr.cbytes {
        cdata[i] := im.data[i];
      }
    }

    method ForceCrypted(key: Key)
      requires Valid() && Cipher.Fits(key)
      modifies this, cdata
      ensures Valid() && Value() == ForcedCrypted(key, old(Value()))
    {
      if hdr.crypted == TRUE {
        return;
      }
      hide Crypted;
      var r := CryptBuf(key, cdata, hdr.cbytes);
      hdr := hdr.(crypted := TRUE);
    }

    method ForceUncrypted(key: Key)
      requires Valid() && Cipher.Fits(key)
      modifies this, cdata
      ensures Valid() && Value() == ForcedUncrypted(key, old(Value()))
    {
      if hdr.crypted != TRUE {
        return;
      }
      hide Crypted;
      var r := CryptBuf(key, cdata, hdr.cbytes);
      hdr := hdr.(crypted := FALSE);
    }

    /** Encrypts the image, with a checksum of its plain octets when asked for. */
    method Prepare(key: Key, docrc: bool, sums: Crc32.Checksum)
      requires Valid() && Cipher.Fits(key) && sums.Valid()
      modifies this, cdata, sums, sums.table
      ensures Valid() && Value() == Outgoing(key, docrc, old(Value())) && sums.Valid()
    {
      hide Crypted, Crc32.Crc;
      hdr := hdr.(crc := 0);
      if docrc {
        ForceUncrypted(key);
        var crc := sums.Compute(0, cdata[..hdr.cbytes]);
        hdr := hdr.(crc := crc);
      }
      if hdr.crypted == TRUE {
        CryptedTwice(key, cdata[..hdr.cbytes]);
      }
      ForceCrypted(key);
    }
  }
}
