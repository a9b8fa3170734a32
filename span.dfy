/** Spans: named intervals opened by a start mark and, once closed, ended by
    an end mark (types/span.go), with the storage key derived from them. */
module Spans {
  import opened Errors
  import opened Base64Url
  import opened Marks

  /** An open span has `end == None`.  The unexported, unused and unserialised
      `parent` field is not part of the model. */
  datatype Span = Span(start: Mark, end: Option<Mark>, name: string)

  /** A SHA-256 digest (FIPS 180-4) is 32 bytes long. */
  type Digest = d: Bytes | |d| == 32 witness seq(32, _ => 0)

  /** The two library functions the key is made with, left abstract:
      `time.Time.MarshalBinary`, which can fail, and `sha256.Sum256`. */
  datatype Hashing = Hashing(marshalBinary: Instant -> Result<Bytes>, sum256: Bytes -> Digest)

  /** The base64url encoding of a digest: 32 bytes make 44 characters. */
  const DigestTextLength: nat := 44

  /** `NewSpan`: the span is named after its start mark with one suffix cut. */
  function NewSpan(start: Mark, end: Option<Mark>): (s: Span)
    ensures s.start == start && s.end == end
    ensures s.name == RemoveSuffix(start).name
  {
    Span(start, end, RemoveSuffix(start).name)
  }

  /** The storage key: the span's name followed by the base64url text of the
      SHA-256 digest of the binary form of the start timestamp. */
  function NameWithTimestampHash(h: Hashing, s: Span): (r: Result<string>)
    ensures r.Failure? <==> h.marshalBinary(s.start.timestamp).Failure?
    ensures r.Failure? ==> r.error == h.marshalBinary(s.start.timestamp).error
    ensures r.Success? ==> |r.value| == |s.name| + DigestTextLength && r.value[..|s.name|] == s.name
    ensures r.Success? ==> forall i :: |s.name| <= i < |r.value| ==> IsEncodedChar(r.value[i])
  {
    match h.marshalBinary(s.start.timestamp)
    case Failure(e) => Failure(e)
    case Success(data) =>
      EncodeAlphabet(h.sum256(data));
      Success(s.name + Encode(h.sum256(data)))
  }

  /** A span made from a start mark is named after the mark without `-start`. */
  lemma NewSpanOfStartMark(m: Mark, end: Option<Mark>)
    ensures NewSpan(AsStart(m), end).name == m.name
  {
    RemoveSuffixOfStart(m);
  }

  /** The key depends on the name and the start timestamp only: not on the
      end mark, nor on the start mark's name or description. */
  lemma KeyDependsOnNameAndStartTime(h: Hashing, s1: Span, s2: Span)
    requires s1.name == s2.name && s1.start.timestamp == s2.start.timestamp
    ensures NameWithTimestampHash(h, s1) == NameWithTimestampHash(h, s2)
  {
  }

  /** Closing a span does not move it: the open and the closed span built from
      the same start mark have the same key. */
  lemma OpenAndClosedSpanSameKey(h: Hashing, start: Mark, end: Mark)
    ensures NameWithTimestampHash(h, NewSpan(start, None)) == NameWithTimestampHash(h, NewSpan(start, Some(end)))
  {
  }

  /** The hashed part contains no path separator, so a key contains `/`
      exactly when the span's name does. */
  lemma KeySeparatorOnlyFromName(h: Hashing, s: Span)
    requires NameWithTimestampHash(h, s).Success?
    ensures ('/' in NameWithTimestampHash(h, s).value) <==> ('/' in s.name)
  {
    var k := NameWithTimestampHash(h, s).value;
    if '/' in k {
      var i :| 0 <= i < |k| && k[i] == '/';
      assert i < |s.name| && s.name[i] == '/' by {
        assert k[..|s.name|][i] == k[i];
      }
    }
    if '/' in s.name {
      var i :| 0 <= i < |s.name| && s.name[i] == '/';
      assert k[..|s.name|][i] == k[i];
    }
  }

  /** Equal keys mean equal names and equal digests: the fixed-length hashed
      part cannot make two names collide. */
  lemma KeyDeterminesNameAndDigest(h: Hashing, s1: Span, s2: Span)
    requires NameWithTimestampHash(h, s1).Success? && NameWithTimestampHash(h, s2).Success?
    requires NameWithTimestampHash(h, s1) == NameWithTimestampHash(h, s2)
    ensures s1.name == s2.name
    ensures h.sum256(h.marshalBinary(s1.start.timestamp).value) == h.sum256(h.marshalBinary(s2.start.timestamp).value)
  {
    var k := NameWithTimestampHash(h, s1).value;
    var d1 := h.sum256(h.marshalBinary(s1.start.timestamp).value);
    var d2 := h.sum256(h.marshalBinary(s2.start.timestamp).value);
    assert k == s1.name + Encode(d1) && k == s2.name + Encode(d2);
    assert |s1.name| == |s2.name|;
    assert s1.name == k[..|s1.name|] == s2.name;
    assert Encode(d1) == k[|s1.name|..] == Encode(d2);
    EncodeInjective(d1, d2);
  }
}
