/** Marks: named, timestamped points (types/mark.go).  A mark's role is carried
    by a suffix of its name, `-start` or `-end`. */
module Marks {

  /** A Go `time.Time`.  The model never looks inside an instant: it only
      stores, compares and hands instants to the abstract MarshalBinary. */
  type Instant(==, !new)

  datatype Mark = Mark(timestamp: Instant, name: string, description: string)

  const StartSuffix: string := "-start"
  const EndSuffix: string := "-end"

  /** A mark named `name`; `now` stands for `time.Now()`. */
  function NewMark(name: string, description: string, now: Instant): (m: Mark)
    ensures m.name == name && m.description == description && m.timestamp == now
  {
    Mark(now, name, description)
  }

  /** `fmt.Sprintf("%s-%s", m.Name, suffix)` on a copy of the mark. */
  function WithSuffix(m: Mark, suffix: string): Mark {
    m.(name := m.name + "-" + suffix)
  }

  function AsStart(m: Mark): (r: Mark)
    ensures r.name == m.name + StartSuffix
    ensures r.timestamp == m.timestamp && r.description == m.description
  {
    WithSuffix(m, "start")
  }

  function AsEnd(m: Mark): (r: Mark)
    ensures r.name == m.name + EndSuffix
    ensures r.timestamp == m.timestamp && r.description == m.description
  {
    WithSuffix(m, "end")
  }

  /** `strings.HasSuffix`. */
  predicate HasSuffix(s: string, suffix: string) {
    |suffix| <= |s| && s[|s| - |suffix|..] == suffix
  }

  /** `strings.CutSuffix`: the string before the suffix and whether it was there. */
  function CutSuffix(s: string, suffix: string): (r: (string, bool))
    ensures r.1 == HasSuffix(s, suffix)
    ensures r.1 ==> r.0 + suffix == s
    ensures !r.1 ==> r.0 == s
  {
    if HasSuffix(s, suffix) then
      assert s == s[..|s| - |suffix|] + s[|s| - |suffix|..];
      (s[..|s| - |suffix|], true)
    else (s, false)
  }

  predicate IsStart(m: Mark) {
    HasSuffix(m.name, StartSuffix)
  }

  predicate IsEnd(m: Mark) {
    HasSuffix(m.name, EndSuffix)
  }

  /** The base name: `-start` is cut if present, otherwise `-end` if present.
      At most one suffix is removed; the other fields are kept. */
  function RemoveSuffix(m: Mark): (r: Mark)
    ensures r.timestamp == m.timestamp && r.description == m.description
    ensures IsStart(m) ==> r.name + StartSuffix == m.name
    ensures !IsStart(m) && IsEnd(m) ==> r.name + EndSuffix == m.name
    ensures !IsStart(m) && !IsEnd(m) ==> r == m
  {
    var (before, found) := CutSuffix(m.name, StartSuffix);
    if found then m.(name := before)
    else
      var (before', found') := CutSuffix(m.name, EndSuffix);
      if found' then m.(name := before') else m
  }

  /** The last character tells the two suffixes apart. */
  lemma SuffixesExclusive(s: string)
    ensures !(HasSuffix(s, StartSuffix) && HasSuffix(s, EndSuffix))
  {
    if HasSuffix(s, StartSuffix) {
      assert s[|s| - 1] == s[|s| - |StartSuffix|..][|StartSuffix| - 1] == 't';
    }
    if HasSuffix(s, EndSuffix) {
      assert s[|s| - 1] == s[|s| - |EndSuffix|..][|EndSuffix| - 1] == 'd';
    }
  }

  /** No mark is both a start mark and an end mark. */
  lemma NotStartAndEnd(m: Mark)
    ensures !(IsStart(m) && IsEnd(m))
  {
    SuffixesExclusive(m.name);
  }

  lemma HasOwnSuffix(s: string, suffix: string)
    ensures HasSuffix(s + suffix, suffix)
  {
    assert (s + suffix)[|s|..] == suffix;
  }

  lemma AsStartIsStart(m: Mark)
    ensures IsStart(AsStart(m)) && !IsEnd(AsStart(m))
  {
    HasOwnSuffix(m.name, StartSuffix);
    NotStartAndEnd(AsStart(m));
  }

  lemma AsEndIsEnd(m: Mark)
    ensures IsEnd(AsEnd(m)) && !IsStart(AsEnd(m))
  {
    HasOwnSuffix(m.name, EndSuffix);
    NotStartAndEnd(AsEnd(m));
  }

  /** Tagging a mark as a start mark and removing the suffix gives it back. */
  lemma RemoveSuffixOfStart(m: Mark)
    ensures RemoveSuffix(AsStart(m)) == m
  {
    AsStartIsStart(m);
    var r := RemoveSuffix(AsStart(m));
    assert |r.name| == |m.name|;
    assert r.name == (m.name + StartSuffix)[..|m.name|];
  }

  /** Tagging a mark as an end mark and removing the suffix gives it back. */
  lemma RemoveSuffixOfEnd(m: Mark)
    ensures RemoveSuffix(AsEnd(m)) == m
  {
    AsEndIsEnd(m);
    var r := RemoveSuffix(AsEnd(m));
    assert |r.name| == |m.name|;
    assert r.name == (m.name + EndSuffix)[..|m.name|];
  }

  /** Only one suffix is ever removed: a start mark made from an end mark
      keeps the `-end`. */
  lemma RemoveSuffixStripsOnce(m: Mark)
    ensures RemoveSuffix(AsStart(AsEnd(m))) == AsEnd(m)
  {
    RemoveSuffixOfStart(AsEnd(m));
  }
}
