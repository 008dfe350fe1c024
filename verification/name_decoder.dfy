/** Decoding of the bulk-download file names `author_field_field_Original.ext`:
    the author key before the first `_`, the original file stem between the
    third `_` and the last `.`, with a `-copy` disambiguator cut off; and the
    two path helpers built on the platform separator. */
module NameDecoder {
  import opened Wrappers
  import opened JavaStrings

  /** The platform file separator, a non-empty string. */
  type Separator = s: string | |s| > 0 witness "/"

  /** Positions of `c` in `s` at or after `from`, in increasing order. */
  function Positions(s: string, c: char, from: nat): (ps: seq<nat>)
    ensures forall i :: 0 <= i < |ps| ==> from <= ps[i] < |s| && s[ps[i]] == c
    ensures forall i, j :: 0 <= i < j < |ps| ==> ps[i] < ps[j]
    decreases |s| - from
  {
    if from >= |s| then []
    else if s[from] == c then [from] + Positions(s, c, from + 1)
    else Positions(s, c, from + 1)
  }

  /** No occurrence of `c` at or after `from` is missed. */
  lemma {:induction false} PositionsComplete(s: string, c: char, from: nat, k: nat)
    requires from <= k < |s| && s[k] == c
    ensures k in Positions(s, c, from)
    decreases |s| - from
  {
    if from < k {
      PositionsComplete(s, c, from + 1, k);
    }
  }

  /** A search from `from` finds the first remaining position, and a search just
      past it sees the rest of them. */
  lemma {:induction false} IndexOfIsFirstPosition(s: string, c: char, from: nat, ps: seq<nat>)
    requires ps == Positions(s, c, from)
    ensures IndexOf(s, c, from) == (if ps == [] then -1 else ps[0])
    ensures ps != [] ==> Positions(s, c, ps[0] + 1) == ps[1..]
    decreases |s| - from
  {
    if from < |s| && s[from] != c {
      IndexOfIsFirstPosition(s, c, from + 1, ps);
    }
  }

  /** `parseStudentsName`: the text before the first `_`; throws without one. */
  function ParseStudentsName(s: string): (r: Option<string>)
    ensures r.Some? <==> '_' in s
    ensures r.Some? ==> r.value <= s && |r.value| < |s| && s[|r.value|] == '_'
    ensures r.Some? ==> '_' !in r.value
  {
    Substring(s, 0, IndexOf(s, '_', 0))
  }

  /** `removeCopyIdentifierChars`: cut at the first `-`, if there is one. */
  function RemoveCopyIdentifierChars(s: string): (r: string)
    ensures r <= s
    ensures '-' !in r
    ensures '-' !in s ==> r == s
    ensures '-' in s ==> |r| < |s| && s[|r|] == '-'
  {
    var idx := IndexOf(s, '-', 0);
    if idx == -1 then s else s[..idx]
  }

  /** Stripping the copy marker twice is stripping it once. */
  lemma RemoveCopyIdentifierCharsIdempotent(s: string)
    ensures RemoveCopyIdentifierChars(RemoveCopyIdentifierChars(s)) == RemoveCopyIdentifierChars(s)
  {
  }

  /** A stem followed by any `-` marker decodes to the stem alone. */
  lemma RemoveCopyIdentifierCharsStripsMarker(s: string, stem: string, marker: string)
    requires '-' !in stem && s == stem + "-" + marker
    ensures RemoveCopyIdentifierChars(s) == stem
  {
    assert s[|stem|] == '-';
    var r := RemoveCopyIdentifierChars(s);
    assert s[..|stem|] == stem;
  }

  /** Where the stem begins: one past the third of three chained
      `indexOf('_', previous + 1)` searches. A missing `_` yields -1, so the next
      search restarts from 0. */
  function StemStart(s: string): (r: int)
    ensures 0 <= r <= |s|
    ensures r > 0 ==> s[r - 1] == '_'
  {
    var i1 := IndexOf(s, '_', 0);
    var i2 := IndexOf(s, '_', i1 + 1);
    var i3 := IndexOf(s, '_', i2 + 1);
    i3 + 1
  }

  /** `StemStart` in terms of the results of its first two searches. */
  lemma StemStartAfter(s: string, i1: int, i2: int)
    requires IndexOf(s, '_', 0) == i1 && IndexOf(s, '_', i1 + 1) == i2
    ensures StemStart(s) == IndexOf(s, '_', i2 + 1) + 1
  {
  }

  /** The third search, once the second found the second underscore. */
  lemma ThirdSearch(s: string, ps: seq<nat>)
    requires ps == Positions(s, '_', 0) && |ps| >= 2
    requires Positions(s, '_', ps[1] + 1) == ps[2..]
    ensures IndexOf(s, '_', ps[1] + 1) == (if |ps| == 2 then -1 else ps[2])
  {
    IndexOfIsFirstPosition(s, '_', ps[1] + 1, ps[2..]);
  }

  /** The second search finds the second underscore, and a search past it sees
      the rest. */
  lemma SecondSearch(s: string, ps: seq<nat>)
    requires ps == Positions(s, '_', 0) && |ps| >= 2
    ensures IndexOf(s, '_', 0) == ps[0]
    ensures IndexOf(s, '_', ps[0] + 1) == ps[1]
    ensures Positions(s, '_', ps[1] + 1) == ps[2..]
  {
    IndexOfIsFirstPosition(s, '_', 0, ps);
    var qs := ps[1..];
    IndexOfIsFirstPosition(s, '_', ps[0] + 1, qs);
    assert qs[0] == ps[1] && qs[1..] == ps[2..];
  }

  /** Two or more underscores: the third search finds the third, or wraps. */
  lemma StemStartAfterSecond(s: string)
    requires |Positions(s, '_', 0)| >= 2
    ensures var ps := Positions(s, '_', 0);
      StemStart(s) == (if |ps| == 2 then 0 else ps[2] + 1)
  {
    var ps := Positions(s, '_', 0);
    SecondSearch(s, ps);
    StemStartAfter(s, ps[0], ps[1]);
    ThirdSearch(s, ps);
  }

  /** Fewer than two underscores: the chained searches find at most one. */
  lemma StemStartBeforeSecond(s: string)
    requires |Positions(s, '_', 0)| < 2
    ensures var ps := Positions(s, '_', 0);
      StemStart(s) == (if |ps| == 0 then 0 else ps[0] + 1)
  {
    var ps := Positions(s, '_', 0);
    IndexOfIsFirstPosition(s, '_', 0, ps);
    if ps == [] {
      StemStartAfter(s, -1, -1);
    } else {
      IndexOfIsFirstPosition(s, '_', ps[0] + 1, ps[1..]);
      StemStartAfter(s, ps[0], -1);
    }
  }

  /** The stem start by number of underscores: with none or with exactly two the
      chained searches wrap around and the stem starts at 0; with one it starts
      after it; with three or more, after the third. */
  lemma StemStartByUnderscores(s: string)
    ensures var ps := Positions(s, '_', 0);
      StemStart(s) == (if |ps| == 0 || |ps| == 2 then 0
                       else if |ps| == 1 then ps[0] + 1
                       else ps[2] + 1)
  {
    if |Positions(s, '_', 0)| < 2 {
      StemStartBeforeSecond(s);
    } else {
      StemStartAfterSecond(s);
    }
  }

  /** `parseJavaSRCFileName`: the text between the stem start and the last `.`,
      without its copy marker; throws when there is no `.` or it lies before the
      stem start. */
  function ParseJavaSrcFileName(s: string): (r: Option<string>)
    ensures r.Some? <==> 0 <= StemStart(s) <= LastIndexOf(s, '.')
  {
    var raw :- Substring(s, StemStart(s), LastIndexOf(s, '.'));
    Some(RemoveCopyIdentifierChars(raw))
  }

  /** The well-formed case: three or more underscores and the last `.` after the
      third gives the text between them, copy marker stripped. */
  lemma ParseJavaSrcFileNameWellFormed(s: string)
    requires var ps := Positions(s, '_', 0); |ps| >= 3 && ps[2] < LastIndexOf(s, '.')
    ensures var ps := Positions(s, '_', 0);
      ParseJavaSrcFileName(s) == Some(RemoveCopyIdentifierChars(s[ps[2] + 1..LastIndexOf(s, '.')]))
  {
    StemStartByUnderscores(s);
  }

  /** The boundary case: a last `.` that comes before the third underscore makes
      the substring bounds cross, so decoding throws rather than yielding "". */
  lemma ParseJavaSrcFileNameDotBeforeThirdUnderscore(s: string)
    requires var ps := Positions(s, '_', 0); |ps| >= 3 && LastIndexOf(s, '.') < ps[2]
    ensures ParseJavaSrcFileName(s) == None
  {
    StemStartByUnderscores(s);
  }

  /** With exactly two underscores the third search wraps to -1 and the stem is
      everything before the last `.`, author and fields included. */
  lemma ParseJavaSrcFileNameTwoUnderscores(s: string)
    requires |Positions(s, '_', 0)| == 2 && '.' in s
    ensures ParseJavaSrcFileName(s) == Some(RemoveCopyIdentifierChars(s[..LastIndexOf(s, '.')]))
  {
    StemStartByUnderscores(s);
  }

  /** Without any `.` decoding always throws. */
  lemma ParseJavaSrcFileNameNoDot(s: string)
    requires '.' !in s
    ensures ParseJavaSrcFileName(s) == None
  {
    StemStartByUnderscores(s);
  }

  /** The naming convention of the bulk download: author, two metadata fields
      and the original file name, joined by `_`. */
  function EncodedName(author: string, f1: string, f2: string, stem: string, ext: string): string
  {
    author + "_" + f1 + "_" + f2 + "_" + stem + "." + ext
  }

  /** Where each part of an encoded name sits. */
  lemma EncodedNameLayout(s: string, author: string, f1: string, f2: string, stem: string, ext: string)
    requires s == EncodedName(author, f1, f2, stem, ext)
    ensures var i1 := |author|; var i2 := i1 + 1 + |f1|; var i3 := i2 + 1 + |f2|; var dot := i3 + 1 + |stem|;
      && |s| == dot + 1 + |ext|
      && s[..i1] == author && s[i1] == '_'
      && s[i1 + 1..i2] == f1 && s[i2] == '_'
      && s[i2 + 1..i3] == f2 && s[i3] == '_'
      && s[i3 + 1..dot] == stem && s[dot] == '.'
      && s[dot + 1..] == ext
  {
  }

  /** Decoding once the stem start and the last `.` are known. */
  lemma ParseJavaSrcFileNameAt(s: string, start: int, dot: int, raw: string)
    requires StemStart(s) == start && LastIndexOf(s, '.') == dot && 0 <= start <= dot
    requires s[start..dot] == raw
    ensures ParseJavaSrcFileName(s) == Some(RemoveCopyIdentifierChars(raw))
  {
  }

  /** Decoding the author of a name whose first underscore is at `i1`. */
  lemma DecodeAuthorAt(s: string, i1: nat)
    requires i1 < |s| && s[i1] == '_' && '_' !in s[..i1]
    ensures ParseStudentsName(s) == Some(s[..i1])
  {
    IndexOfFound(s, '_', 0, i1);
  }

  /** Decoding the stem of a name with underscores at `i1 < i2 < i3`, none
      before them, and its last `.` at `dot` after them. */
  lemma DecodeStemAt(s: string, i1: nat, i2: nat, i3: nat, dot: nat, raw: string)
    requires i1 < i2 < i3 < dot < |s| && s[i3 + 1..dot] == raw
    requires s[i1] == '_' && s[i2] == '_' && s[i3] == '_' && s[dot] == '.'
    requires '_' !in s[..i1] && '_' !in s[i1 + 1..i2] && '_' !in s[i2 + 1..i3] && '.' !in s[dot + 1..]
    ensures ParseJavaSrcFileName(s) == Some(RemoveCopyIdentifierChars(raw))
  {
    assert s[0..i1] == s[..i1];
    IndexOfFound(s, '_', 0, i1);
    IndexOfFound(s, '_', i1 + 1, i2);
    IndexOfFound(s, '_', i2 + 1, i3);
    StemStartAfter(s, i1, i2);
    LastIndexOfFound(s, '.', dot);
    ParseJavaSrcFileNameAt(s, i3 + 1, dot, raw);
  }

  /** Decoding a name laid out as `author_f1_f2_stem.ext`. */
  lemma DecodeLayout(s: string, author: string, f1: string, f2: string, stem: string, ext: string)
    requires '_' !in author && '_' !in f1 && '_' !in f2 && '.' !in ext
    requires var i1 := |author|; var i2 := i1 + 1 + |f1|; var i3 := i2 + 1 + |f2|; var dot := i3 + 1 + |stem|;
      && |s| == dot + 1 + |ext|
      && s[..i1] == author && s[i1] == '_'
      && s[i1 + 1..i2] == f1 && s[i2] == '_'
      && s[i2 + 1..i3] == f2 && s[i3] == '_'
      && s[i3 + 1..dot] == stem && s[dot] == '.'
      && s[dot + 1..] == ext
    ensures ParseStudentsName(s) == Some(author)
    ensures ParseJavaSrcFileName(s) == Some(RemoveCopyIdentifierChars(stem))
  {
    var i1 := |author|;
    var i2 := i1 + 1 + |f1|;
    var i3 := i2 + 1 + |f2|;
    var dot := i3 + 1 + |stem|;
    DecodeAuthorAt(s, i1);
    DecodeStemAt(s, i1, i2, i3, dot, stem);
  }

  /** Round trip: decoding an encoded name gives back the author and the original
      stem (less any copy marker), whatever the stem and metadata contain apart
      from the delimiters. */
  lemma DecodeEncodedName(s: string, author: string, f1: string, f2: string, stem: string, ext: string)
    requires '_' !in author && '_' !in f1 && '_' !in f2 && '.' !in ext
    requires s == EncodedName(author, f1, f2, stem, ext)
    ensures ParseStudentsName(s) == Some(author)
    ensures ParseJavaSrcFileName(s) == Some(RemoveCopyIdentifierChars(stem))
  {
    EncodedNameLayout(s, author, f1, f2, stem, ext);
    DecodeLayout(s, author, f1, f2, stem, ext);
  }

  /** A re-submitted copy (`stem-marker`) decodes to the same stem as the
      original, so both land under the same name. */
  lemma DecodeCopyOfSubmission(s: string, author: string, f1: string, f2: string, stem: string, marker: string, ext: string)
    requires '_' !in author && '_' !in f1 && '_' !in f2 && '.' !in ext && '-' !in stem
    requires s == EncodedName(author, f1, f2, stem + "-" + marker, ext)
    ensures ParseStudentsName(s) == Some(author)
    ensures ParseJavaSrcFileName(s) == Some(stem)
  {
    RemoveCopyIdentifierCharsStripsMarker(stem + "-" + marker, stem, marker);
    DecodeEncodedName(s, author, f1, f2, stem + "-" + marker, ext);
  }

  /** `lastIndexOfPathSep`: the start of the last separator in `s`, or -1. */
  function LastIndexOfPathSep(sep: Separator, s: string): (r: int)
    ensures r == -1 || OccursAt(s, sep, r)
    ensures forall k :: r < k ==> !OccursAt(s, sep, k)
    ensures r == -1 <==> !Contains(s, sep)
  {
    LastIndexOfString(s, sep)
  }

  /** `getFileName`: despite its name, the text up to and including the first
      character of the last separator (the directory part, for a one-character
      separator), and "" when `s` has no separator. */
  function GetFileName(sep: Separator, s: string): (r: string)
    ensures r <= s
    ensures |r| == 0 <==> !Contains(s, sep)
    ensures |r| > 0 ==> OccursAt(s, sep, |r| - 1)
    ensures forall k :: |r| <= k ==> !OccursAt(s, sep, k)
  {
    s[..LastIndexOfPathSep(sep, s) + 1]
  }
}
