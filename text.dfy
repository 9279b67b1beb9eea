/** Models of the Python `str` operations that the reply handling is built from:
    `in` (substring containment), `strip()`, `split(sep)`, `replace(old, new)`,
    `splitlines()`, and the filtering list comprehension. */
module Text {

  /** The characters Python's argument-less `strip()` removes, restricted to ASCII. */
  predicate IsSpace(c: char) {
    c == ' ' || c == '\t' || c == '\n' || c == '\r' || c == '\U{0B}' || c == '\U{0C}'
    || c == '\U{1C}' || c == '\U{1D}' || c == '\U{1E}' || c == '\U{1F}'
  }

  predicate AllSpace(s: string) {
    forall i :: 0 <= i < |s| ==> IsSpace(s[i])
  }

  /** Neither end of `s` is whitespace. */
  predicate IsStripped(s: string) {
    s == [] || (!IsSpace(s[0]) && !IsSpace(s[|s| - 1]))
  }

  // ---------------------------------------------------------------- containment

  /** Python's `t in s` for strings: `t` occurs somewhere in `s`. */
  predicate Contains(s: string, t: string)
    decreases |s|
  {
    t <= s || (s != [] && Contains(s[1..], t))
  }

  lemma {:induction false} ContainsAppendLeft(a: string, b: string, t: string)
    requires Contains(a, t)
    ensures Contains(a + b, t)
    decreases |a|
  {
    if t <= a {
      assert (a + b)[..|t|] == a[..|t|];
    } else {
      ContainsAppendLeft(a[1..], b, t);
      assert (a + b)[1..] == a[1..] + b;
    }
  }

  lemma {:induction false} ContainsAppendRight(a: string, b: string, t: string)
    requires Contains(b, t)
    ensures Contains(a + b, t)
    decreases |a|
  {
    if a == [] {
      assert a + b == b;
    } else {
      ContainsAppendRight(a[1..], b, t);
      assert (a + b)[1..] == a[1..] + b;
    }
  }

  /** Whatever occurs in an infix of `s` occurs in `s`. */
  lemma ContainsInfix(s: string, i: nat, j: nat, t: string)
    requires i <= j <= |s|
    ensures Contains(s[i..j], t) ==> Contains(s, t)
  {
    if Contains(s[i..j], t) {
      ContainsAppendLeft(s[i..j], s[j..], t);
      ContainsAppendRight(s[..i], s[i..j] + s[j..], t);
      assert s[..i] + (s[i..j] + s[j..]) == s;
    }
  }

  /** For a one-character pattern, containment is membership. */
  lemma {:induction false} ContainsChar(s: string, c: char)
    ensures Contains(s, [c]) <==> c in s
    decreases |s|
  {
    if s != [] {
      ContainsChar(s[1..], c);
      assert s == [s[0]] + s[1..];
    }
  }

  lemma EmptyContainsNothing(t: string)
    requires t != []
    ensures !Contains([], t)
  {
  }

  /** A pattern without `c` that occurs in `a + [c] + b` occurs in `a` or in `b`: it
      cannot straddle the `c`. */
  lemma {:induction false} ContainsAround(a: string, c: char, b: string, t: string)
    requires t != [] && c !in t
    ensures Contains(a + [c] + b, t) ==> Contains(a, t) || Contains(b, t)
    decreases |a|
  {
    var s := a + [c] + b;
    assert s[|a|] == c;
    if t <= s && |t| <= |a| {
      assert t <= a;
    }
    if a == [] {
      assert s[1..] == b;
    } else {
      assert s[1..] == a[1..] + [c] + b;
      ContainsAround(a[1..], c, b, t);
    }
  }

  // ---------------------------------------------------------------- strip

  /** The number of whitespace characters `s` starts with. */
  function LeadingSpace(s: string): (n: nat)
    ensures n <= |s| && AllSpace(s[..n]) && (n < |s| ==> !IsSpace(s[n]))
    decreases |s|
  {
    if s != [] && IsSpace(s[0]) then
      var m := LeadingSpace(s[1..]);
      assert s[..m + 1] == [s[0]] + s[1..][..m];
      m + 1
    else 0
  }

  /** The position at which the whitespace `s` ends with begins. */
  function TrailingSpace(s: string): (n: nat)
    ensures n <= |s| && AllSpace(s[n..]) && (n > 0 ==> !IsSpace(s[n - 1]))
    decreases |s|
  {
    if s != [] && IsSpace(s[|s| - 1]) then
      var m := TrailingSpace(s[..|s| - 1]);
      assert s[m..] == s[..|s| - 1][m..] + [s[|s| - 1]];
      m
    else |s|
  }

  /** Python's `s.strip()`: `s` with its leading and trailing whitespace removed. */
  function Strip(s: string): (r: string)
    ensures IsStripped(r)
    ensures |r| <= |s|
  {
    var left := s[LeadingSpace(s)..];
    left[..TrailingSpace(left)]
  }

  /** The stripped text neither starts nor ends with whitespace and is the infix of `s`
      that leaves only whitespace on either side. */
  lemma StripIsInfix(s: string)
    ensures var r := Strip(s);
      IsStripped(r) &&
      exists i :: 0 <= i <= |s| - |r| && r == s[i..i + |r|] && AllSpace(s[..i]) && AllSpace(s[i + |r|..])
  {
    var i := StripStart(s);
  }

  /** Where the stripped text starts in `s`. */
  lemma StripStart(s: string) returns (i: nat)
    ensures var r := Strip(s);
      i <= |s| - |r| && r == s[i..i + |r|] && AllSpace(s[..i]) && AllSpace(s[i + |r|..])
  {
    i := LeadingSpace(s);
    StripAt(s, i);
    InfixAt(s, i, Strip(s));
  }

  /** The stripped text is the prefix, up to its trailing whitespace, of the suffix of
      `s` after its leading whitespace. */
  lemma StripAt(s: string, i: nat)
    requires i == LeadingSpace(s)
    ensures var r := Strip(s);
      i <= |s| - |r| && r == s[i..][..|r|] && AllSpace(s[..i]) && AllSpace(s[i..][|r|..])
  {
  }

  /** A prefix `r` of the suffix of `s` at `i` is the infix of `s` at `i`; whitespace after
      it in that suffix is whitespace after it in `s`. */
  lemma InfixAt(s: string, i: nat, r: string)
    requires i <= |s| && |r| <= |s| - i && r == s[i..][..|r|]
    requires AllSpace(s[..i]) && AllSpace(s[i..][|r|..])
    ensures i <= |s| - |r| && r == s[i..i + |r|] && AllSpace(s[..i]) && AllSpace(s[i + |r|..])
  {
    SliceOfSuffix(s, i, |r|);
  }

  lemma StripOfStripped(s: string)
    requires IsStripped(s)
    ensures Strip(s) == s
  {
  }

  /** Stripping twice is stripping once. */
  lemma StripIdempotent(s: string)
    ensures Strip(Strip(s)) == Strip(s)
  {
    StripOfStripped(Strip(s));
  }

  /** Stripping cannot create an occurrence of a pattern. */
  lemma StripKeepsAbsence(s: string, t: string)
    requires !Contains(s, t)
    ensures !Contains(Strip(s), t)
  {
    var r := Strip(s);
    var i := StripStart(s);
    ContainsInfix(s, i, i + |r|, t);
    assert !Contains(s[i..i + |r|], t);
  }

  /** Concatenation is associative; stated once so that proofs can name the step. */
  lemma AppendAssoc<T>(x: seq<T>, y: seq<T>, z: seq<T>)
    ensures (x + y) + z == x + (y + z)
  {
  }

  /** The last element of a concatenation with a non-empty right part, and what precedes it. */
  lemma AppendDropLast<T>(a: seq<T>, b: seq<T>)
    requires b != []
    ensures (a + b)[..|a + b| - 1] == a + b[..|b| - 1]
    ensures (a + b)[|a + b| - 1] == b[|b| - 1]
  {
    assert (a + b)[..|a + b| - 1] == a + b[..|b| - 1];
  }

  /** A sequence is its prefix followed by the rest. */
  lemma TakeDrop<T>(s: seq<T>, k: nat)
    requires k <= |s|
    ensures s[..k] + s[k..] == s
  {
  }

  /** Slicing a suffix is slicing the whole. */
  lemma ConsTake<T>(s: seq<T>, k: nat)
    requires 0 < k <= |s|
    ensures [s[0]] + s[1..k] == s[..k]
  {
  }

  lemma SliceOfSuffix<T>(s: seq<T>, i: nat, j: nat)
    requires i + j <= |s|
    ensures s[i..][..j] == s[i..i + j] && s[i..][j..] == s[i + j..]
  {
  }

  /** The head and tail of a concatenation with a non-empty left part. */
  lemma TailOfAppend<T>(a: seq<T>, b: seq<T>)
    requires a != []
    ensures (a + b)[0] == a[0] && (a + b)[1..] == a[1..] + b
  {
  }

  /** A prefix of a concatenation that fits in the left part. */
  lemma PrefixOfAppend<T>(a: seq<T>, b: seq<T>, n: nat)
    requires n <= |a|
    ensures (a + b)[..n] == a[..n]
  {
  }

  /** What follows the left part of a concatenation. */
  lemma SuffixOfAppend<T>(a: seq<T>, b: seq<T>)
    ensures (a + b)[|a|..] == b
  {
  }

  // ---------------------------------------------------------------- split and join

  /** Python's `s.split(sep)` for a non-empty separator: cut at every occurrence of `sep`,
      scanning from the left and never reusing the characters of an occurrence already cut. */
  function Split(s: string, sep: string): (r: seq<string>)
    requires sep != []
    ensures |r| >= 1
    decreases |s|
  {
    if sep <= s then [""] + Split(s[|sep|..], sep)
    else if s == [] then [s]
    else
      var rest := Split(s[1..], sep);
      [[s[0]] + rest[0]] + rest[1..]
  }

  /** Python's `sep.join(parts)`. */
  function Join(parts: seq<string>, sep: string): string
    decreases |parts|
  {
    if parts == [] then ""
    else if |parts| == 1 then parts[0]
    else parts[0] + sep + Join(parts[1..], sep)
  }

  /** An empty first part contributes just one separator. */
  lemma JoinEmptyFirst(parts: seq<string>, sep: string)
    requires parts != []
    ensures Join([""] + parts, sep) == sep + Join(parts, sep)
  {
    var r := [""] + parts;
    assert r[0] == "" && r[1..] == parts;
    assert "" + sep == sep;
  }

  /** Putting a character in front of the first part puts it in front of the join. */
  lemma JoinConsFirst(c: char, parts: seq<string>, sep: string)
    requires parts != []
    ensures Join([[c] + parts[0]] + parts[1..], sep) == [c] + Join(parts, sep)
  {
    var r := [[c] + parts[0]] + parts[1..];
    assert r[0] == [c] + parts[0] && r[1..] == parts[1..];
    if |parts| > 1 {
      var tail := Join(parts[1..], sep);
      calc {
        Join(r, sep);
        (([c] + parts[0]) + sep) + tail;
        { AppendAssoc([c], parts[0], sep);
          AppendAssoc([c], parts[0] + sep, tail); }
        [c] + ((parts[0] + sep) + tail);
        [c] + Join(parts, sep);
      }
    }
  }

  /** Number of positions at which `sep` starts in `s`, overlapping ones included;
      an independent count to compare `Split` with. */
  function Occurrences(s: string, sep: string): nat
    decreases |s|
  {
    if s == [] then 0 else (if sep <= s then 1 else 0) + Occurrences(s[1..], sep)
  }

  /** No proper suffix of `sep` is a prefix of `sep`, so two occurrences never overlap. */
  predicate NoSelfOverlap(sep: string) {
    forall k :: 0 < k < |sep| ==> !(sep[k..] <= sep)
  }

  /** A separator whose last character occurs nowhere else cannot overlap itself. */
  lemma UniqueLastNoSelfOverlap(sep: string)
    requires sep != []
    requires sep[|sep| - 1] !in sep[..|sep| - 1]
    ensures NoSelfOverlap(sep)
  {
    forall k | 0 < k < |sep|
      ensures !(sep[k..] <= sep)
    {
      var n := |sep|;
      assert sep[k..][n - k - 1] == sep[n - 1];
      assert sep[..n - 1][n - k - 1] == sep[n - k - 1];
    }
  }

  lemma JoinHead(parts: seq<string>, sep: string)
    requires |parts| >= 1
    ensures parts[0] <= Join(parts, sep)
  {
  }

  /** Joining the pieces of a split with the same separator gives the text back. */
  lemma {:induction false} SplitJoin(s: string, sep: string)
    requires sep != []
    ensures Join(Split(s, sep), sep) == s
    decreases |s|
  {
    if sep <= s {
      SplitJoin(s[|sep|..], sep);
      SplitJoinAtMatch(s, sep);
    } else if s != [] {
      SplitJoin(s[1..], sep);
      SplitJoinAtChar(s, sep);
    }
  }

  /** The step of `SplitJoin` where the text opens with the separator. */
  lemma SplitJoinAtMatch(s: string, sep: string)
    requires sep != [] && sep <= s
    requires Join(Split(s[|sep|..], sep), sep) == s[|sep|..]
    ensures Join(Split(s, sep), sep) == s
  {
    JoinEmptyFirst(Split(s[|sep|..], sep), sep);
    TakeDrop(s, |sep|);
  }

  /** The step of `SplitJoin` where the text opens with a character that starts no match. */
  lemma SplitJoinAtChar(s: string, sep: string)
    requires sep != [] && !(sep <= s) && s != []
    requires Join(Split(s[1..], sep), sep) == s[1..]
    ensures Join(Split(s, sep), sep) == s
  {
    JoinConsFirst(s[0], Split(s[1..], sep), sep);
    TakeDrop(s, 1);
    assert s[..1] == [s[0]];
  }

  /** No piece of a split contains the separator. */
  lemma {:induction false} SplitPiecesFree(s: string, sep: string)
    requires sep != []
    ensures forall k :: 0 <= k < |Split(s, sep)| ==> !Contains(Split(s, sep)[k], sep)
    decreases |s|
  {
    if sep <= s {
      SplitPiecesFree(s[|sep|..], sep);
      var rest := Split(s[|sep|..], sep);
      assert Split(s, sep) == [""] + rest;
      EmptyContainsNothing(sep);
    } else if s != [] {
      SplitPiecesFree(s[1..], sep);
      var rest := Split(s[1..], sep);
      var first := [s[0]] + rest[0];
      SplitJoin(s[1..], sep);
      JoinHead(rest, sep);
      assert first <= s;
      assert first[1..] == rest[0];
      assert !(sep <= first);
      assert forall k :: 1 <= k < |Split(s, sep)| ==> Split(s, sep)[k] == rest[k];
    } else {
      EmptyContainsNothing(sep);
    }
  }

  /** A text without the separator splits into itself alone. */
  lemma {:induction false} SplitAbsent(s: string, sep: string)
    requires sep != [] && !Contains(s, sep)
    ensures Split(s, sep) == [s]
    decreases |s|
  {
    if s != [] {
      SplitAbsent(s[1..], sep);
      assert [s[0]] + s[1..] == s;
    }
  }

  /** A split yields a single piece exactly when the separator is absent. */
  lemma SplitSingleIff(s: string, sep: string)
    requires sep != []
    ensures |Split(s, sep)| == 1 <==> !Contains(s, sep)
  {
    if !Contains(s, sep) {
      SplitAbsent(s, sep);
    } else {
      SplitJoin(s, sep);
      SplitPiecesFree(s, sep);
    }
  }

  /** When `sep` starts `s`, no occurrence begins strictly inside that first one. */
  lemma NoOverlappingMatch(s: string, sep: string, k: nat)
    requires NoSelfOverlap(sep) && sep <= s && 0 < k < |sep|
    ensures !(sep <= s[k..])
  {
    var n := |sep|;
    assert s[k..][..n - k] == sep[k..];
  }

  lemma {:induction false} OccurrencesSkip(s: string, sep: string, k: nat)
    requires NoSelfOverlap(sep) && sep <= s && 1 <= k <= |sep|
    ensures Occurrences(s[1..], sep) == Occurrences(s[k..], sep)
    decreases k
  {
    if k > 1 {
      OccurrencesSkip(s, sep, k - 1);
      NoOverlappingMatch(s, sep, k - 1);
      assert s[k - 1..][1..] == s[k..];
    }
  }

  /** For a separator that cannot overlap itself, a split makes one more piece
      than there are occurrences of the separator. */
  lemma {:induction false} SplitCount(s: string, sep: string)
    requires sep != [] && NoSelfOverlap(sep)
    ensures |Split(s, sep)| == Occurrences(s, sep) + 1
    decreases |s|
  {
    if sep <= s {
      SplitCount(s[|sep|..], sep);
      OccurrencesSkip(s, sep, |sep|);
    } else if s != [] {
      SplitCount(s[1..], sep);
    }
  }

  /** Splitting text that starts with a separator-free piece and a separator. */
  lemma {:induction false} SplitAfterFirst(x: string, sep: string, z: string)
    requires sep != [] && NoSelfOverlap(sep) && !Contains(x, sep)
    ensures Split(x + sep + z, sep) == [x] + Split(z, sep)
    decreases |x|
  {
    var s := x + sep + z;
    if x == [] {
      assert s == sep + z;
      assert s[|sep|..] == z;
    } else {
      assert !(sep <= s) by {
        if |x| >= |sep| {
          PrefixOfAppend(x, sep + z, |sep|);
          AppendAssoc(x, sep, z);
        } else {
          assert s[|x|..][..|sep|] == sep;
          if sep <= s {
            NoOverlappingMatch(s, sep, |x|);
          }
        }
      }
      var rest := Split(s[1..], sep);
      assert rest == [x[1..]] + Split(z, sep) by {
        TailOfAppend(x, sep);
        TailOfAppend(x + sep, z);
        SplitAfterFirst(x[1..], sep, z);
      }
      assert s[0] == x[0];
      assert [x[0]] + x[1..] == x;
      assert rest[1..] == Split(z, sep);
    }
  }

  /** Splitting what was joined from separator-free pieces gives the pieces back. */
  lemma {:induction false} JoinSplit(parts: seq<string>, sep: string)
    requires sep != [] && NoSelfOverlap(sep) && |parts| >= 1
    requires forall k :: 0 <= k < |parts| ==> !Contains(parts[k], sep)
    ensures Split(Join(parts, sep), sep) == parts
    decreases |parts|
  {
    if |parts| == 1 {
      SplitAbsent(parts[0], sep);
    } else {
      JoinSplit(parts[1..], sep);
      SplitAfterFirst(parts[0], sep, Join(parts[1..], sep));
    }
  }

  /** The two-piece case: `x + sep + y` with neither side containing `sep`. */
  lemma SplitAround(x: string, sep: string, y: string)
    requires sep != [] && NoSelfOverlap(sep) && !Contains(x, sep) && !Contains(y, sep)
    ensures Split(x + sep + y, sep) == [x, y]
  {
    SplitAfterFirst(x, sep, y);
    SplitAbsent(y, sep);
  }

  /** A split into exactly two pieces puts one separator between them. */
  lemma SplitTwo(s: string, sep: string)
    requires sep != [] && |Split(s, sep)| == 2
    ensures s == Split(s, sep)[0] + sep + Split(s, sep)[1]
  {
    SplitJoin(s, sep);
  }

  /** The first piece of a split is the text before the first occurrence of the separator,
      or the whole text when there is none. */
  lemma SplitFirstPiece(s: string, sep: string)
    requires sep != []
    ensures Split(s, sep)[0] <= s
    ensures !Contains(Split(s, sep)[0], sep)
    ensures Split(s, sep)[0] == s <==> !Contains(s, sep)
    ensures Split(s, sep)[0] != s ==> sep <= s[|Split(s, sep)[0]|..]
    ensures forall i :: 0 <= i < |Split(s, sep)[0]| ==> !(sep <= s[i..])
  {
    var r := Split(s, sep);
    NoMatchInFirstPiece(s, sep);
    SplitJoin(s, sep);
    SplitPiecesFree(s, sep);
    SplitSingleIff(s, sep);
    if |r| == 1 {
      assert r[0] == s;
    } else {
      var tail := Join(r[1..], sep);
      assert s == r[0] + (sep + tail) by {
        AppendAssoc(r[0], sep, tail);
      }
      PrefixOfAppend(r[0], sep + tail, |r[0]|);
      SuffixOfAppend(r[0], sep + tail);
      assert r[0][..|r[0]|] == r[0];
      assert (sep + tail)[..|sep|] == sep;
    }
  }

  /** No occurrence of the separator starts inside the first piece, so the separator
      after it is the first occurrence, even for a separator that overlaps itself. */
  lemma {:induction false} NoMatchInFirstPiece(s: string, sep: string)
    requires sep != []
    ensures |Split(s, sep)[0]| <= |s|
    ensures forall i :: 0 <= i < |Split(s, sep)[0]| ==> !(sep <= s[i..])
    decreases |s|
  {
    if !(sep <= s) && s != [] {
      var rest := Split(s[1..], sep);
      NoMatchInFirstPiece(s[1..], sep);
      assert Split(s, sep)[0] == [s[0]] + rest[0];
      forall i | 0 < i < |Split(s, sep)[0]|
        ensures !(sep <= s[i..])
      {
        assert s[i..] == s[1..][i - 1..];
      }
    }
  }

  // ---------------------------------------------------------------- replace

  /** Python's `s.replace(old, new)`, here `Replace(s, pattern, replacement)`, for a non-empty pattern: a left-to-right scan
      that rewrites each occurrence and resumes after it. */
  function Replace(s: string, pattern: string, replacement: string): string
    requires pattern != []
    decreases |s|
  {
    if pattern <= s then replacement + Replace(s[|pattern|..], pattern, replacement)
    else if s == [] then s
    else [s[0]] + Replace(s[1..], pattern, replacement)
  }

  /** Replacing agrees with splitting on `pattern` and joining with `replacement`. */
  lemma {:induction false} ReplaceIsSplitJoin(s: string, pattern: string, replacement: string)
    requires pattern != []
    ensures Replace(s, pattern, replacement) == Join(Split(s, pattern), replacement)
    decreases |s|
  {
    if pattern <= s {
      ReplaceIsSplitJoin(s[|pattern|..], pattern, replacement);
      JoinEmptyFirst(Split(s[|pattern|..], pattern), replacement);
    } else if s != [] {
      ReplaceIsSplitJoin(s[1..], pattern, replacement);
      JoinConsFirst(s[0], Split(s[1..], pattern), replacement);
    }
  }

  /** Removing a pattern that does not occur changes nothing. */
  lemma ReplaceAbsent(s: string, pattern: string, replacement: string)
    requires pattern != [] && !Contains(s, pattern)
    ensures Replace(s, pattern, replacement) == s
  {
    ReplaceIsSplitJoin(s, pattern, replacement);
    SplitAbsent(s, pattern);
  }

  // ---------------------------------------------------------------- lines

  /** A line terminated by "\r\n" loses the carriage return as well. */
  function DropCarriageReturn(line: string): string {
    if line != [] && line[|line| - 1] == '\r' then line[..|line| - 1] else line
  }

  /** The pieces of `s` between line feeds, without the empty piece after a final one. */
  function LinePieces(s: string): (r: seq<string>)
    ensures forall k :: 0 <= k < |r| ==> !Contains(r[k], "\n")
    ensures s == [] ==> r == []
  {
    SplitPiecesFree(s, "\n");
    DropFinalEmpty(Split(s, "\n"))
  }

  /** The pieces without a final empty one. */
  function DropFinalEmpty(pieces: seq<string>): (r: seq<string>)
    requires |pieces| >= 1
    ensures r <= pieces && |r| >= |pieces| - 1
  {
    if pieces[|pieces| - 1] == "" then pieces[..|pieces| - 1] else pieces
  }

  /** Python's `s.splitlines()`, for "\n" and "\r\n" line ends: the lines of `s`
      without their terminators, and no empty line after a final terminator. */
  function SplitLines(s: string): (r: seq<string>)
    ensures forall k :: 0 <= k < |r| ==> '\n' !in r[k]
    ensures s == [] ==> r == []
  {
    var lines := LinePieces(s);
    LinesHaveNoBreak(lines);
    DropCarriageReturns(lines)
  }

  /** Every line without a carriage return at its end. */
  function DropCarriageReturns(lines: seq<string>): seq<string>
  {
    seq(|lines|, k requires 0 <= k < |lines| => DropCarriageReturn(lines[k]))
  }

  lemma LinesHaveNoBreak(lines: seq<string>)
    requires forall k :: 0 <= k < |lines| ==> !Contains(lines[k], "\n")
    ensures forall k :: 0 <= k < |lines| ==> '\n' !in DropCarriageReturn(lines[k])
  {
    forall k | 0 <= k < |lines|
      ensures '\n' !in DropCarriageReturn(lines[k])
    {
      ContainsChar(lines[k], '\n');
      var l := lines[k];
      if l != [] && l[|l| - 1] == '\r' {
        assert forall c :: c in l[..|l| - 1] ==> c in l;
      }
    }
  }

  /** Lines without line ends, the last one non-empty, joined with "\n" are split back. */
  lemma SplitLinesOfJoin(lines: seq<string>)
    requires |lines| >= 1 && lines[|lines| - 1] != ""
    requires forall k :: 0 <= k < |lines| ==> '\n' !in lines[k] && '\r' !in lines[k]
    ensures SplitLines(Join(lines, "\n")) == lines
  {
    LinePiecesOfJoin(lines);
    KeepCarriageFree(lines);
  }

  lemma LinePiecesOfJoin(lines: seq<string>)
    requires |lines| >= 1 && lines[|lines| - 1] != ""
    requires forall k :: 0 <= k < |lines| ==> '\n' !in lines[k]
    ensures LinePieces(Join(lines, "\n")) == lines
  {
    SplitJoinedLines(lines);
    assert DropFinalEmpty(lines) == lines;
  }

  /** Lines without a carriage return keep their last character. */
  lemma KeepCarriageFree(lines: seq<string>)
    requires forall k :: 0 <= k < |lines| ==> '\r' !in lines[k]
    ensures DropCarriageReturns(lines) == lines
  {
    forall k | 0 <= k < |lines|
      ensures DropCarriageReturn(lines[k]) == lines[k]
    {
      var l := lines[k];
      assert l != [] ==> l[|l| - 1] in l;
    }
  }

  lemma SplitJoinedLines(lines: seq<string>)
    requires |lines| >= 1
    requires forall k :: 0 <= k < |lines| ==> '\n' !in lines[k]
    ensures Split(Join(lines, "\n"), "\n") == lines
  {
    forall k | 0 <= k < |lines|
      ensures !Contains(lines[k], "\n")
    {
      ContainsChar(lines[k], '\n');
    }
    UniqueLastNoSelfOverlap("\n");
    JoinSplit(lines, "\n");
  }

  // ---------------------------------------------------------------- filtering

  /** The list comprehension `[x for x in s if p(x)]`. */
  function Filter<T(==,!new)>(p: T -> bool, s: seq<T>): (r: seq<T>)
    ensures |r| <= |s|
    ensures forall x :: x in r <==> x in s && p(x)
    decreases |s|
  {
    if s == [] then []
    else (if p(s[0]) then [s[0]] else []) + Filter(p, s[1..])
  }

  /** A filter that rejects exactly one element removes just that one. */
  lemma {:induction false} FilterDropsOne<T(!new)>(p: T -> bool, s: seq<T>, k: nat)
    requires k < |s| && !p(s[k])
    requires forall i :: 0 <= i < |s| && i != k ==> p(s[i])
    ensures Filter(p, s) == s[..k] + s[k + 1..]
    decreases |s|
  {
    var t := s[1..];
    if k == 0 {
      FilterKeepsAll(p, t);
      assert s[..0] + t == t;
    } else {
      forall i | 0 <= i < |t| && i != k - 1
        ensures p(t[i])
      {
        assert t[i] == s[i + 1];
      }
      FilterDropsOne(p, t, k - 1);
      FilterDropsStep(p, s, k);
    }
  }

  /** Keeping the head in front of a tail that lost its element at `k - 1`. */
  lemma FilterDropsStep<T(!new)>(p: T -> bool, s: seq<T>, k: nat)
    requires 0 < k < |s| && p(s[0])
    requires Filter(p, s[1..]) == s[1..][..k - 1] + s[1..][k..]
    ensures Filter(p, s) == s[..k] + s[k + 1..]
  {
    var t := s[1..];
    SliceOfSuffix(s, 1, k - 1);
    ConsTake(s, k);
    calc {
      Filter(p, s);
      [s[0]] + Filter(p, t);
      [s[0]] + (s[1..k] + s[k + 1..]);
      { AppendAssoc([s[0]], s[1..k], s[k + 1..]); }
      ([s[0]] + s[1..k]) + s[k + 1..];
      s[..k] + s[k + 1..];
    }
  }

  /** Filtering keeps the original order: it distributes over concatenation. */
  lemma {:induction false} FilterAppend<T(!new)>(p: T -> bool, a: seq<T>, b: seq<T>)
    ensures Filter(p, a + b) == Filter(p, a) + Filter(p, b)
    decreases |a|
  {
    if a == [] {
      assert a + b == b;
    } else {
      var head := if p(a[0]) then [a[0]] else [];
      assert (a + b)[0] == a[0];
      assert (a + b)[1..] == a[1..] + b;
      calc {
        Filter(p, a + b);
        head + Filter(p, a[1..] + b);
        { FilterAppend(p, a[1..], b); }
        head + (Filter(p, a[1..]) + Filter(p, b));
        { AppendAssoc(head, Filter(p, a[1..]), Filter(p, b)); }
        (head + Filter(p, a[1..])) + Filter(p, b);
        Filter(p, a) + Filter(p, b);
      }
    }
  }

  /** A filter that accepts every element keeps the sequence as it is. */
  lemma {:induction false} FilterKeepsAll<T(!new)>(p: T -> bool, s: seq<T>)
    requires forall k :: 0 <= k < |s| ==> p(s[k])
    ensures Filter(p, s) == s
    decreases |s|
  {
    if s != [] {
      FilterKeepsAll(p, s[1..]);
    }
  }
}
