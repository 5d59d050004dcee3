/** The Python string operations the loaders use: str.startswith, slicing
    with clamped bounds, str.index, str.rstrip, str.split and str.join. */
module Text {

  import opened Values

  predicate StartsWith(s: string, prefix: string) {
    |prefix| <= |s| && s[..|prefix|] == prefix
  }

  /** Python's s[i:j] for non-negative i and j: both bounds are clamped to
      the length, and an empty slice results when i >= j. */
  function Slice(s: string, i: nat, j: nat): (r: string)
    ensures i <= j <= |s| ==> r == s[i..j]
    ensures j <= i || |s| <= i ==> r == ""
  {
    var hi := if j <= |s| then j else |s|;
    if i < hi then s[i..hi] else ""
  }

  /** Python's s[i:] for non-negative i. */
  function Drop(s: string, i: nat): (r: string)
    ensures i <= |s| ==> r == s[i..]
    ensures |s| <= i ==> r == ""
  {
    Slice(s, i, |s|)
  }

  predicate OccursAt(s: string, sub: string, k: nat) {
    k + |sub| <= |s| && s[k..k + |sub|] == sub
  }

  /** Python's s.index(sub): the first position where sub occurs, or None
      where Python raises ValueError. */
  function Find(s: string, sub: string): (r: Option<nat>)
    ensures r.Some? ==> OccursAt(s, sub, r.value)
    ensures r.Some? ==> forall k: nat :: k < r.value ==> !OccursAt(s, sub, k)
    ensures r.None? ==> forall k: nat :: !OccursAt(s, sub, k)
    decreases |s|
  {
    if |s| < |sub| then None
    else if s[..|sub|] == sub then Some(0)
    else
      match Find(s[1..], sub)
      case None =>
        assert forall k: nat :: !OccursAt(s, sub, k) by {
          forall k: nat | OccursAt(s, sub, k) ensures false {
            if k > 0 {
              assert s[1..][k - 1..k - 1 + |sub|] == s[k..k + |sub|];
              assert OccursAt(s[1..], sub, k - 1);
            }
          }
        }
        None
      case Some(i) =>
        assert s[1..][i..i + |sub|] == s[i + 1..i + 1 + |sub|];
        assert forall k: nat :: k < i + 1 ==> !OccursAt(s, sub, k) by {
          forall k: nat | k < i + 1 && OccursAt(s, sub, k) ensures false {
            if k > 0 {
              assert s[1..][k - 1..k - 1 + |sub|] == s[k..k + |sub|];
              assert OccursAt(s[1..], sub, k - 1);
            }
          }
        }
        Some(i + 1)
  }

  /** The characters Python's str.isspace() accepts. */
  predicate IsSpace(c: char) {
    || c == '\t' || c == '\n' || c == '\U{B}' || c == '\U{C}' || c == '\r'
    || ('\U{1C}' <= c <= '\U{1F}') || c == ' ' || c == '\U{85}' || c == '\U{A0}'
    || c == '\U{1680}' || ('\U{2000}' <= c <= '\U{200A}') || c == '\U{2028}' || c == '\U{2029}'
    || c == '\U{202F}' || c == '\U{205F}' || c == '\U{3000}'
  }

  /** Python's s.rstrip(): s without its trailing whitespace. */
  function RStrip(s: string): (r: string)
    ensures |r| <= |s| && r == s[..|r|]
    ensures r == [] || !IsSpace(r[|r| - 1])
    ensures forall i :: |r| <= i < |s| ==> IsSpace(s[i])
    decreases |s|
  {
    if |s| > 0 && IsSpace(s[|s| - 1]) then RStrip(s[..|s| - 1]) else s
  }

  /** sep.join(parts) for a one-character separator. */
  function Join(parts: seq<string>, sep: char): string
    decreases |parts|
  {
    if parts == [] then ""
    else if |parts| == 1 then parts[0]
    else parts[0] + [sep] + Join(parts[1..], sep)
  }

  /** Python's s.split(sep) for a one-character separator: the pieces
      between separators, empty ones included. */
  function Split(s: string, sep: char): (r: seq<string>)
    ensures |r| >= 1
    ensures forall i :: 0 <= i < |r| ==> sep !in r[i]
    ensures Join(r, sep) == s
    decreases |s|
  {
    match Find(s, [sep])
    case None =>
      assert forall k: nat :: k < |s| ==> !OccursAt(s, [sep], k);
      assert sep !in s by {
        forall k | 0 <= k < |s| ensures s[k] != sep {
          assert !OccursAt(s, [sep], k);
          assert s[k..k + 1] == [s[k]];
        }
      }
      [s]
    case Some(k) =>
      assert s[k..k + 1] == [sep];
      var head, tail := s[..k], s[k + 1..];
      assert sep !in head by {
        forall j | 0 <= j < k ensures s[j] != sep {
          assert !OccursAt(s, [sep], j);
          assert s[j..j + 1] == [s[j]];
        }
      }
      var rest := Split(tail, sep);
      assert s == head + [sep] + tail;
      [head] + rest
  }

  /** Splitting what Join produced gives the parts back, when no part
      contains the separator. */
  lemma {:induction false} SplitJoin(parts: seq<string>, sep: char)
    requires |parts| >= 1
    requires forall i :: 0 <= i < |parts| ==> sep !in parts[i]
    ensures Split(Join(parts, sep), sep) == parts
    decreases |parts|
  {
    var s := Join(parts, sep);
    if |parts| == 1 {
      assert forall k: nat :: !OccursAt(s, [sep], k) by {
        forall k: nat | k < |s| ensures !OccursAt(s, [sep], k) {
          assert s[k] != sep;
          assert s[k..k + 1] == [s[k]];
        }
      }
    } else {
      var head, tail := parts[0], Join(parts[1..], sep);
      assert s == head + [sep] + tail;
      FindFirstSeparator(head, tail, sep);
      assert s[..|head|] == head && s[|head| + 1..] == tail;
      SplitJoin(parts[1..], sep);
    }
  }

  lemma FindFirstSeparator(head: string, tail: string, sep: char)
    requires sep !in head
    ensures Find(head + [sep] + tail, [sep]) == Some(|head|)
  {
    var s := head + [sep] + tail;
    assert OccursAt(s, [sep], |head|) by { assert s[|head|..|head| + 1] == [sep]; }
    assert forall k: nat :: k < |head| ==> !OccursAt(s, [sep], k) by {
      forall k: nat | k < |head| ensures !OccursAt(s, [sep], k) {
        assert s[k..k + 1] == [head[k]];
      }
    }
  }
}
