/**
 Ordered trial decoding: strict UTF-8 first, then the fixed candidate list;
 the first encoding under which the bytes decode is the detected one.
 */
module Detection {
  import opened Wrappers
  import opened Codecs
  import Utf8

  /** The fallback encodings, in the order they are tried after UTF-8 fails. */
  const Candidates: seq<Encoding> := [GBK, Big5, UTF16, UTF8Sig]

  /** Index of the first encoding in `encs` under which `raw` decodes, or `|encs|` if there is none. */
  function FirstDecoding(f: ForeignCodecs, encs: seq<Encoding>, raw: seq<Utf8.byte>): (k: nat)
    ensures k <= |encs|
    ensures k < |encs| ==> Decodes(f, encs[k], raw)
    ensures forall j :: 0 <= j < k ==> !Decodes(f, encs[j], raw)
  {
    if encs == [] then 0
    else if Decodes(f, encs[0], raw) then 0
    else 1 + FirstDecoding(f, encs[1..], raw)
  }

  /**
   The detected encoding of a file's bytes, `None` when neither UTF-8 nor any
   candidate decodes them. UTF-8 wins whenever it applies; otherwise the
   result is the earliest candidate that decodes, and no earlier one does.
   The `utf-8-sig` candidate is never the outcome: whatever it accepts is
   already valid UTF-8, so detection stops at UTF-8 before reaching it.
   */
  function Detect(f: ForeignCodecs, raw: seq<Utf8.byte>): (r: Option<Encoding>)
    ensures r == Some(UTF8) <==> Utf8.Valid(raw)
    ensures r.Some? ==> Decodes(f, r.value, raw)
    ensures r.None? <==> !Utf8.Valid(raw) && forall e :: e in Candidates ==> !Decodes(f, e, raw)
    ensures r.Some? && r.value != UTF8 ==>
      exists k :: 0 <= k < |Candidates| && Candidates[k] == r.value &&
        forall j :: 0 <= j < k ==> !Decodes(f, Candidates[j], raw)
    ensures r != Some(UTF8Sig)
  {
    if Utf8.Valid(raw) then Some(UTF8)
    else
      var k := FirstDecoding(f, Candidates, raw);
      if k < |Candidates| then Some(Candidates[k]) else None
  }

  /**
   The detection step of the converter: try UTF-8, then each candidate in
   turn, stopping at the first that decodes; `None` is the loop running off
   its end, after which the file is skipped.
   */
  method DetectEncoding(f: ForeignCodecs, raw: seq<Utf8.byte>) returns (encoding: Option<Encoding>)
    ensures encoding == Detect(f, raw)
  {
    if Decodes(f, UTF8, raw) {
      return Some(UTF8);
    }
    var possible := Candidates;
    encoding := None;
    var i := 0;
    while i < |possible|
      invariant 0 <= i <= |possible|
      invariant forall j :: 0 <= j < i ==> !Decodes(f, possible[j], raw)
      invariant encoding == None
    {
      if Decodes(f, possible[i], raw) {
        encoding := Some(possible[i]);
        break;
      }
      i := i + 1;
    }
  }
}
