/** The parts of `java.lang.String` the program relies on, with Java's
    conventions made explicit: searches answer -1 when nothing is found, a
    negative start index counts as 0, and `substring` throws (here: `None`)
    when its bounds are out of order or out of range. */
module JavaStrings {
  import opened Wrappers

  /** The start index a search from `from` really uses. */
  function StartOf(from: int): nat
  {
    if from < 0 then 0 else from
  }

  /** `s.indexOf(c, from)`: the first position at or after `from` holding `c`. */
  function IndexOf(s: string, c: char, from: int): (r: int)
    ensures -1 <= r < |s|
    ensures r >= 0 ==> StartOf(from) <= r && s[r] == c
    ensures forall k :: StartOf(from) <= k < |s| && (r < 0 || k < r) ==> s[k] != c
    decreases if from < 0 then |s| + 1 else |s| - from
  {
    if from < 0 then IndexOf(s, c, 0)
    else if from >= |s| then -1
    else if s[from] == c then from
    else IndexOf(s, c, from + 1)
  }

  /** `s.lastIndexOf(c)`: the last position holding `c`. */
  function LastIndexOf(s: string, c: char): (r: int)
    ensures -1 <= r < |s|
    ensures r >= 0 ==> s[r] == c
    ensures forall k :: r < k < |s| ==> s[k] != c
  {
    if |s| == 0 then -1
    else if s[|s| - 1] == c then |s| - 1
    else LastIndexOf(s[..|s| - 1], c)
  }

  /** The search from `from` stops at `r` when `r` holds `c` and nothing before it does. */
  lemma IndexOfFound(s: string, c: char, from: nat, r: nat)
    requires from <= r < |s| && s[r] == c && c !in s[from..r]
    ensures IndexOf(s, c, from) == r
  {
  }

  /** The backward search stops at `r` when `r` holds `c` and nothing after it does. */
  lemma LastIndexOfFound(s: string, c: char, r: nat)
    requires r < |s| && s[r] == c && c !in s[r + 1..]
    ensures LastIndexOf(s, c) == r
  {
  }

  /** `t` appears in `s` starting at position `k`. */
  predicate OccursAt(s: string, t: string, k: int)
  {
    0 <= k && k + |t| <= |s| && s[k..k + |t|] == t
  }

  /** The last occurrence of `t` in `s` that starts at or before `k`. */
  function LastOccurrenceUpTo(s: string, t: string, k: int): (r: int)
    ensures r == -1 || (r <= k && OccursAt(s, t, r))
    ensures forall j :: r < j <= k ==> !OccursAt(s, t, j)
    decreases k
  {
    if k < 0 then -1
    else if OccursAt(s, t, k) then k
    else LastOccurrenceUpTo(s, t, k - 1)
  }

  /** `s.lastIndexOf(t)` for a string argument: the start of the last occurrence. */
  function LastIndexOfString(s: string, t: string): (r: int)
    ensures r == -1 || OccursAt(s, t, r)
    ensures forall k :: r < k ==> !OccursAt(s, t, k)
  {
    LastOccurrenceUpTo(s, t, |s| - |t|)
  }

  /** `s.contains(t)`. */
  function Contains(s: string, t: string): (r: bool)
    ensures r <==> exists k :: OccursAt(s, t, k)
  {
    LastIndexOfString(s, t) >= 0
  }

  /** `s.substring(b, e)`, which throws unless 0 <= b <= e <= |s|. */
  function Substring(s: string, b: int, e: int): (r: Option<string>)
    ensures r.Some? <==> 0 <= b <= e <= |s|
    ensures r.Some? ==> |r.value| == e - b && r.value <= s[b..]
  {
    if 0 <= b <= e <= |s| then Some(s[b..e]) else None
  }

  /** `s.replaceAll(c, "")` for a regular expression that matches the single
      character `c` literally: every `c` is dropped, everything else kept in order. */
  function RemoveAll(s: string, c: char): (r: string)
    ensures c !in r
    ensures |r| <= |s|
    ensures c !in s ==> r == s
    ensures multiset(r) == multiset(s)[c := 0]
    ensures |r| == |s| - multiset(s)[c]
  {
    if |s| == 0 then []
    else
      assert s == [s[0]] + s[1..];
      if s[0] == c then RemoveAll(s[1..], c)
      else [s[0]] + RemoveAll(s[1..], c)
  }

  /** Removing a character commutes with concatenation, so `RemoveAll` is the
      character-wise filter and nothing else. */
  lemma {:induction false} RemoveAllAppend(a: string, b: string, c: char)
    ensures RemoveAll(a + b, c) == RemoveAll(a, c) + RemoveAll(b, c)
    decreases |a|
  {
    if |a| == 0 {
      assert a + b == b;
    } else {
      assert (a + b)[1..] == a[1..] + b;
      RemoveAllAppend(a[1..], b, c);
    }
  }

  /** Removing twice is removing once. */
  lemma RemoveAllIdempotent(s: string, c: char)
    ensures RemoveAll(RemoveAll(s, c), c) == RemoveAll(s, c)
  {
  }
}
