/** The string helpers of `util_std.hpp`: padding, splitting on a character,
    replacing a substring and cutting at a delimiter. */
module StdStrings {
  import opened Results
  import Slices

  /** `pat` occurs in `s` at index `k`. */
  predicate OccursAt(s: string, pat: string, k: nat)
  {
    k + |pat| <= |s| && s[k..k + |pat|] == pat
  }

  predicate Occurs(s: string, pat: string)
  {
    exists k: nat | k <= |s| :: OccursAt(s, pat, k)
  }

  /** `std::string::find`: the first occurrence, from index `from` on. */
  function FindFrom(s: string, pat: string, from: nat): (r: Option<nat>)
    requires from <= |s|
    ensures r.Some? ==> from <= r.value && OccursAt(s, pat, r.value)
    ensures r.Some? ==> forall k: nat :: from <= k < r.value ==> !OccursAt(s, pat, k)
    ensures r.None? ==> forall k: nat :: from <= k ==> !OccursAt(s, pat, k)
    decreases |s| - from
  {
    if OccursAt(s, pat, from) then Some(from)
    else if from + |pat| >= |s| then None
    else FindFrom(s, pat, from + 1)
  }

  function Find(s: string, pat: string): (r: Option<nat>)
    ensures r.Some? <==> Occurs(s, pat)
    ensures r.Some? ==> OccursAt(s, pat, r.value) && forall k: nat :: k < r.value ==> !OccursAt(s, pat, k)
  {
    FindFrom(s, pat, 0)
  }

  /** `std::string::rfind`: the last occurrence. */
  function FindLastBelow(s: string, pat: string, bound: nat): (r: Option<nat>)
    ensures r.Some? ==> r.value <= bound && OccursAt(s, pat, r.value)
    ensures r.Some? ==> forall k: nat :: r.value < k <= bound ==> !OccursAt(s, pat, k)
    ensures r.None? ==> forall k: nat :: k <= bound ==> !OccursAt(s, pat, k)
  {
    if OccursAt(s, pat, bound) then Some(bound)
    else if bound == 0 then None
    else FindLastBelow(s, pat, bound - 1)
  }

  function FindLast(s: string, pat: string): (r: Option<nat>)
    ensures r.Some? <==> Occurs(s, pat)
    ensures r.Some? ==> OccursAt(s, pat, r.value) && forall k: nat :: r.value < k ==> !OccursAt(s, pat, k)
  {
    FindLastBelow(s, pat, |s|)
  }

  /** `pad_str` for a non-negative target length: `s` followed by spaces up
      to `length` characters; a longer `s` is returned as it is. */
  function PadStr(s: string, length: nat): (r: string)
    ensures |r| == if |s| < length then length else |s|
    ensures r[..|s|] == s
    ensures forall i :: |s| <= i < |r| ==> r[i] == ' '
  {
    if |s| < length then s + Spaces(length - |s|) else s
  }

  function Spaces(n: nat): (r: string)
    ensures |r| == n && forall i :: 0 <= i < n ==> r[i] == ' '
  {
    if n == 0 then [] else [' '] + Spaces(n - 1)
  }

  /** Index of the first `c` in `s`, or `|s|` when there is none. */
  function IndexOf(s: string, c: char): (r: nat)
    ensures r <= |s|
    ensures c !in s[..r]
    ensures r < |s| ==> s[r] == c
  {
    if s == [] then 0 else if s[0] == c then 0 else 1 + IndexOf(s[1..], c)
  }

  /** The pieces of `s` between the separators, empty pieces included. */
  function Pieces(s: string, sep: char): (r: seq<string>)
    ensures |r| >= 1
    decreases |s|
  {
    var i := IndexOf(s, sep);
    if i == |s| then [s] else [s[..i]] + Pieces(s[i + 1..], sep)
  }

  /** `split_string`: no pieces at all for the empty string. */
  function SplitString(s: string, sep: char): seq<string>
  {
    if |s| == 0 then [] else Pieces(s, sep)
  }

  /** The pieces glued back together with `sep` between them. */
  function Join(pieces: seq<string>, sep: char): string
  {
    if |pieces| == 0 then []
    else if |pieces| == 1 then pieces[0]
    else pieces[0] + [sep] + Join(pieces[1..], sep)
  }

  /** Number of occurrences of `c` in `s`. */
  function Count(s: string, c: char): nat
  {
    if s == [] then 0 else (if s[0] == c then 1 else 0) + Count(s[1..], c)
  }

  /** `IndexOf` is characterised by its two ensures clauses. */
  lemma {:induction false} IndexOfIs(s: string, c: char, k: nat)
    requires k <= |s| && c !in s[..k]
    requires k < |s| ==> s[k] == c
    ensures IndexOf(s, c) == k
  {
    if k > 0 {
      assert s[0] == s[..k][0];
      assert s[1..][..k - 1] == s[..k][1..];
      IndexOfIs(s[1..], c, k - 1);
    }
  }

  /** When the first separator of `s` is at `k`, the first piece ends there. */
  lemma PiecesAtSeparator(s: string, sep: char, k: nat)
    requires k < |s| && s[k] == sep && sep !in s[..k]
    ensures Pieces(s, sep) == [s[..k]] + Pieces(s[k + 1..], sep)
  {
    IndexOfIs(s, sep, k);
  }

  /** The pieces of a suffix starting after a separator (or at 0), cut at
      the next separator or at the end. */
  lemma PiecesOfSuffix(s: string, sep: char, start: nat, i: nat)
    requires start <= i <= |s| && sep !in s[start..i]
    requires i < |s| ==> s[i] == sep
    ensures i == |s| ==> Pieces(s[start..], sep) == [s[start..i]]
    ensures i < |s| ==> Pieces(s[start..], sep) == [s[start..i]] + Pieces(s[i + 1..], sep)
  {
    var rest := s[start..];
    assert rest[..i - start] == s[start..i];
    assert i == |s| ==> rest == s[start..i];
    IndexOfIs(rest, sep, i - start);
    assert i < |s| ==> rest[i - start + 1..] == s[i + 1..];
  }

  /** The loop of `split_string` has emitted `strings` and is scanning the
      piece that starts at `start`. */
  predicate SplitSoFar(s: string, sep: char, strings: seq<string>, start: nat, i: nat)
  {
    start <= i <= |s| && sep !in s[start..i] && strings + Pieces(s[start..], sep) == Pieces(s, sep)
  }

  /** At a separator, the piece scanned so far is emitted and a new one
      starts after the separator. */
  lemma SplitEmitSeparator(s: string, sep: char, strings: seq<string>, start: nat, i: nat)
    requires SplitSoFar(s, sep, strings, start, i)
    requires i < |s| && s[i] == sep
    ensures SplitSoFar(s, sep, strings + [s[start..i]], i + 1, i + 1)
  {
    PiecesOfSuffix(s, sep, start, i);
    var piece := s[start..i];
    var rest := Pieces(s[i + 1..], sep);
    Slices.AppendAssoc(strings, [piece], rest);
    assert s[i + 1..i + 1] == [];
  }

  /** At the end, the piece scanned so far is the last one. */
  lemma SplitEmitEnd(s: string, sep: char, strings: seq<string>, start: nat)
    requires SplitSoFar(s, sep, strings, start, |s|)
    ensures strings + [s[start..]] == Pieces(s, sep)
  {
    PiecesOfSuffix(s, sep, start, |s|);
  }

  /** Any other character extends the piece being scanned. */
  lemma SplitScan(s: string, sep: char, strings: seq<string>, start: nat, i: nat)
    requires SplitSoFar(s, sep, strings, start, i)
    requires i < |s| && s[i] != sep
    ensures SplitSoFar(s, sep, strings, start, i + 1)
  {
    assert s[start..i + 1] == s[start..i] + [s[i]];
  }

  /** `split_string`: one loop over the indices 0..|s|, the last one
      standing for the end of the string. */
  method Split(s: string, sep: char) returns (strings: seq<string>)
    ensures strings == SplitString(s, sep)
  {
    if |s| == 0 {
      return [];
    }
    strings := [];
    var startIndex := 0;
    assert s[0..] == s;
    for i := 0 to |s| + 1
      invariant startIndex <= i
      invariant i <= |s| ==> SplitSoFar(s, sep, strings, startIndex, i)
      invariant i == |s| + 1 ==> strings == Pieces(s, sep)
    {
      if i == |s| || s[i] == sep {
        if i == |s| {
          SplitEmitEnd(s, sep, strings, startIndex);
          assert s[startIndex..i] == s[startIndex..];
        } else {
          SplitEmitSeparator(s, sep, strings, startIndex, i);
        }
        strings := strings + [s[startIndex..i]];
        startIndex := i + 1;
      } else {
        SplitScan(s, sep, strings, startIndex, i);
      }
    }
  }

  /** Joining the pieces with the separator gives the string back. */
  lemma {:induction false} JoinPieces(s: string, sep: char)
    ensures Join(Pieces(s, sep), sep) == s
    decreases |s|
  {
    var i := IndexOf(s, sep);
    if i < |s| {
      JoinPieces(s[i + 1..], sep);
      Slices.SplitAt(s, i);
      assert s[i..] == [sep] + s[i + 1..];
      Slices.AppendAssoc(s[..i], [sep], s[i + 1..]);
    }
  }

  /** No piece contains the separator. */
  lemma {:induction false} PiecesAvoidSeparator(s: string, sep: char)
    ensures forall p :: p in Pieces(s, sep) ==> sep !in p
    decreases |s|
  {
    var i := IndexOf(s, sep);
    if i < |s| {
      PiecesAvoidSeparator(s[i + 1..], sep);
    }
  }

  /** One more piece than there are separators. */
  lemma {:induction false} PiecesCount(s: string, sep: char)
    ensures |Pieces(s, sep)| == Count(s, sep) + 1
    decreases |s|
  {
    var i := IndexOf(s, sep);
    CountSplit(s[..i], s[i..], sep);
    assert s == s[..i] + s[i..];
    CountAbsent(s[..i], sep);
    if i < |s| {
      PiecesCount(s[i + 1..], sep);
      assert s[i..] == [sep] + s[i + 1..];
      CountSplit([sep], s[i + 1..], sep);
    }
  }

  lemma {:induction false} CountSplit(a: string, b: string, c: char)
    ensures Count(a + b, c) == Count(a, c) + Count(b, c)
  {
    if a == [] {
      assert a + b == b;
    } else {
      assert (a + b)[1..] == a[1..] + b;
      CountSplit(a[1..], b, c);
    }
  }

  lemma {:induction false} CountAbsent(a: string, c: char)
    requires c !in a
    ensures Count(a, c) == 0
  {
    if a != [] {
      CountAbsent(a[1..], c);
    }
  }

  /** The other direction: pieces free of the separator are what splitting
      their join gives back. */
  lemma {:induction false} PiecesOfJoin(pieces: seq<string>, sep: char)
    requires |pieces| >= 1
    requires forall p :: p in pieces ==> sep !in p
    ensures Pieces(Join(pieces, sep), sep) == pieces
  {
    if |pieces| == 1 {
      assert pieces[0] in pieces;
      IndexOfIs(pieces[0], sep, |pieces[0]|);
    } else {
      var s := Join(pieces, sep);
      var k := |pieces[0]|;
      assert s[..k] == pieces[0];
      PiecesAtSeparator(s, sep, k);
      assert s[k + 1..] == Join(pieces[1..], sep);
      PiecesOfJoin(pieces[1..], sep);
    }
  }

  /** `string_replace` with a non-empty pattern: each occurrence, scanning
      left to right without overlap, becomes `to`. */
  function Replace(s: string, from: string, to: string): (r: string)
    requires |from| > 0
    decreases |s|
  {
    match Find(s, from)
    case None => s
    case Some(k) => s[..k] + to + Replace(s[k + |from|..], from, to)
  }

  /** `string_replace`: the loop over the remaining suffix. */
  method StringReplace(str: string, from: string, to: string) returns (result: string)
    requires |from| > 0
    ensures result == Replace(str, from, to)
  {
    var remaining := str;
    var newString := "";
    while true
      invariant newString + Replace(remaining, from, to) == Replace(str, from, to)
      decreases |remaining|
    {
      var next := Find(remaining, from);
      if next.None? {
        return newString + remaining;
      }
      var k := next.value;
      var rest := remaining[k + |from|..];
      ReplaceStep(remaining, from, to, k);
      Slices.AppendAssoc(newString, remaining[..k] + to, Replace(rest, from, to));
      newString := newString + (remaining[..k] + to);
      remaining := rest;
    }
  }

  /** One step of `Replace` at the first occurrence. */
  lemma {:induction false} ReplaceStep(s: string, from: string, to: string, k: nat)
    requires |from| > 0 && Find(s, from) == Some(k)
    ensures Replace(s, from, to) == (s[..k] + to) + Replace(s[k + |from|..], from, to)
  {
  }

  /** With no occurrence, nothing changes. */
  lemma ReplaceAbsent(s: string, from: string, to: string)
    requires |from| > 0 && !Occurs(s, from)
    ensures Replace(s, from, to) == s
  {
  }

  /** Replacing a pattern by itself changes nothing. */
  lemma {:induction false} ReplaceBySelf(s: string, from: string)
    requires |from| > 0
    ensures Replace(s, from, from) == s
    decreases |s|
  {
    match Find(s, from)
    case None =>
    case Some(k) =>
      ReplaceBySelf(s[k + |from|..], from);
      assert s == s[..k] + s[k..k + |from|] + s[k + |from|..];
  }

  /** Replacing a character by a text that does not hold it removes every
      occurrence of that character. */
  lemma {:induction false} ReplaceRemovesPattern(s: string, c: char, to: string)
    requires c !in to
    ensures c !in Replace(s, [c], to)
    decreases |s|
  {
    match Find(s, [c])
    case None =>
      forall j | 0 <= j < |s| ensures s[j] != c {
        assert !OccursAt(s, [c], j);
      }
    case Some(k) =>
      ReplaceRemovesPattern(s[k + 1..], c, to);
      forall j | 0 <= j < k ensures s[j] != c {
        assert !OccursAt(s, [c], j);
      }
  }

  /** For a one-character pattern, `find` is `IndexOf`. */
  lemma FindChar(s: string, c: char)
    ensures Find(s, [c]) == if IndexOf(s, c) < |s| then Some(IndexOf(s, c)) else None
  {
    var r := Find(s, [c]);
    if r.Some? {
      var k := r.value;
      forall j | 0 <= j < k ensures s[j] != c {
        assert !OccursAt(s, [c], j);
      }
      assert s[k] == s[k..k + 1][0];
      IndexOfIs(s, c, k);
    } else {
      forall j | 0 <= j < |s| ensures s[j] != c {
        assert !OccursAt(s, [c], j);
      }
      IndexOfIs(s, c, |s|);
    }
  }

  /** Replacing a single character is splitting on it and joining with the
      replacement. */
  lemma {:induction false} ReplaceCharIsSplitJoin(s: string, c: char, to: string)
    ensures Replace(s, [c], to) == JoinWith(Pieces(s, c), to)
    decreases |s|
  {
    FindChar(s, c);
    var i := IndexOf(s, c);
    if i < |s| {
      ReplaceCharIsSplitJoin(s[i + 1..], c, to);
    }
  }

  /** Pieces glued with an arbitrary string between them. */
  function JoinWith(pieces: seq<string>, glue: string): string
  {
    if |pieces| == 0 then []
    else if |pieces| == 1 then pieces[0]
    else pieces[0] + glue + JoinWith(pieces[1..], glue)
  }

  /** `cut_off_after_find`: everything before the first occurrence of the
      delimiter, or all of `s` (an empty delimiter occurs at 0). */
  function CutOffAfterFind(s: string, delimiter: string): (r: string)
    ensures |r| <= |s| && r == s[..|r|]
    ensures !Occurs(s, delimiter) ==> r == s
    ensures Occurs(s, delimiter) ==> OccursAt(s, delimiter, |r|)
    ensures Occurs(s, delimiter) ==> forall k: nat :: k < |r| ==> !OccursAt(s, delimiter, k)
  {
    match Find(s, delimiter)
    case None => s
    case Some(k) => s[..k]
  }

  /** What `cut_off_after_find` keeps holds no occurrence of a non-empty
      delimiter. */
  lemma CutOffAfterFindAvoids(s: string, delimiter: string)
    requires |delimiter| > 0
    ensures !Occurs(CutOffAfterFind(s, delimiter), delimiter)
  {
    var r := CutOffAfterFind(s, delimiter);
    forall j: nat | j <= |r| ensures !OccursAt(r, delimiter, j) {
      if OccursAt(r, delimiter, j) {
        assert r[j..j + |delimiter|] == s[..|r|][j..j + |delimiter|] == s[j..j + |delimiter|];
        assert OccursAt(s, delimiter, j);
      }
    }
  }

  /** `cut_off_after_rfind`: everything before the last occurrence of the
      delimiter, or all of `s` (an empty delimiter occurs at `|s|`). */
  function CutOffAfterRfind(s: string, delimiter: string): (r: string)
    ensures |r| <= |s| && r == s[..|r|]
    ensures !Occurs(s, delimiter) ==> r == s
    ensures Occurs(s, delimiter) ==> OccursAt(s, delimiter, |r|)
    ensures Occurs(s, delimiter) ==> forall k: nat :: |r| < k ==> !OccursAt(s, delimiter, k)
  {
    match FindLast(s, delimiter)
    case None => s
    case Some(k) => s[..k]
  }

  /** An empty delimiter cuts everything off with `find` and nothing with
      `rfind`. */
  lemma CutOffEmptyDelimiter(s: string)
    ensures CutOffAfterFind(s, "") == ""
    ensures CutOffAfterRfind(s, "") == s
  {
    assert OccursAt(s, "", 0);
    assert OccursAt(s, "", |s|);
  }
}
