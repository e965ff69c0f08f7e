/**
 The five encodings the converter can name, and what "the bytes decode under
 encoding e" means for each. UTF-8 and UTF-8-with-signature are concrete; the
 GBK, Big5 and UTF-16 tables belong to Python's codec library and are given
 to the model as parameters.
 */
module Codecs {
  import opened Wrappers
  import Utf8

  datatype Encoding = UTF8 | GBK | Big5 | UTF16 | UTF8Sig

  /** The codec name Python is given, and that a conversion record reports. */
  function Name(e: Encoding): string
  {
    match e
    case UTF8 => "utf-8"
    case GBK => "gbk"
    case Big5 => "big5"
    case UTF16 => "utf-16"
    case UTF8Sig => "utf-8-sig"
  }

  /**
   Strict decoders of Python's `gbk`, `big5` and `utf-16` codecs; `None` is a
   UnicodeDecodeError. Their tables are not part of this model.
   */
  datatype ForeignCodecs = ForeignCodecs(
    gbk: seq<Utf8.byte> -> Option<string>,
    big5: seq<Utf8.byte> -> Option<string>,
    utf16: seq<Utf8.byte> -> Option<string>)

  /** The UTF-8 encoding of U+FEFF, the signature `utf-8-sig` strips. */
  const Bom: seq<Utf8.byte> := [0xEF, 0xBB, 0xBF]

  predicate HasBom(raw: seq<Utf8.byte>) { |raw| >= 3 && raw[..3] == Bom }

  /**
   Python's `utf-8-sig` decoder: drop one leading signature, if there is one,
   and decode the rest as strict UTF-8. Whatever it accepts is already valid
   UTF-8 (the signature is itself a UTF-8 character), and plain UTF-8 keeps the
   signature as a leading U+FEFF.
   */
  function DecodeUtf8Sig(raw: seq<Utf8.byte>): (r: Option<string>)
    ensures r.Some? ==> Utf8.Valid(raw)
    ensures r.Some? && !HasBom(raw) ==> Utf8.Decode(raw) == r
    ensures r.Some? && HasBom(raw) ==> Utf8.Decode(raw) == Some(['\U{FEFF}'] + r.value)
  {
    if HasBom(raw) then
      var rest := raw[3..];
      assert raw == Bom + rest;
      assert Utf8.LeadLength(raw) == 3;
      assert raw[..3] == Bom && raw[3..] == rest;
      Utf8.Decode(rest)
    else Utf8.Decode(raw)
  }

  /** `raw.decode(Name(e))` in strict mode. */
  function Decode(f: ForeignCodecs, e: Encoding, raw: seq<Utf8.byte>): Option<string>
  {
    match e
    case UTF8 => Utf8.Decode(raw)
    case GBK => f.gbk(raw)
    case Big5 => f.big5(raw)
    case UTF16 => f.utf16(raw)
    case UTF8Sig => DecodeUtf8Sig(raw)
  }

  predicate Decodes(f: ForeignCodecs, e: Encoding, raw: seq<Utf8.byte>)
  {
    Decode(f, e, raw).Some?
  }
}
