/**
 * The parts of Python's `str` and `re` that the subtitle code relies on:
 * `isspace`/`\s`, `strip`, `lower`, `replace`, `split('\n')`, `'\n'.join`, and
 * `re.split(r'\n\s*\n', ...)`, defined on `seq<char>`.
 */
module Text {
  import opened Wrappers

  /** Python's `str.isspace` for one character; `\s` in a `str` pattern
      matches exactly these characters as well. */
  predicate IsSpace(c: char) {
    var n := c as int;
    (0x09 <= n <= 0x0D) || (0x1C <= n <= 0x20) || n == 0x85 || n == 0xA0 || n == 0x1680
    || (0x2000 <= n <= 0x200A) || n == 0x2028 || n == 0x2029 || n == 0x202F
    || n == 0x205F || n == 0x3000
  }

  ghost predicate AllSpace(s: string) {
    forall i :: 0 <= i < |s| ==> IsSpace(s[i])
  }

  // ---------------------------------------------------------------------------
  // strip

  function TrimStart(s: string): (r: string)
    ensures |r| <= |s| && r == s[|s| - |r|..]
    ensures forall i :: 0 <= i < |s| - |r| ==> IsSpace(s[i])
    ensures r == [] || !IsSpace(r[0])
    decreases |s|
  {
    if |s| > 0 && IsSpace(s[0]) then TrimStart(s[1..]) else s
  }

  function TrimEnd(s: string): (r: string)
    ensures |r| <= |s| && r == s[..|r|]
    ensures forall i :: |r| <= i < |s| ==> IsSpace(s[i])
    ensures r == [] || !IsSpace(r[|r| - 1])
    decreases |s|
  {
    if |s| > 0 && IsSpace(s[|s| - 1]) then TrimEnd(s[..|s| - 1]) else s
  }

  /** Python's `s.strip()`: the result neither starts nor ends with
      whitespace, and it is empty exactly when `s` is all whitespace. */
  function Strip(s: string): (r: string)
    ensures |r| <= |s|
    ensures r == [] || (!IsSpace(r[0]) && !IsSpace(r[|r| - 1]))
    ensures r == [] <==> AllSpace(s)
  {
    var t := TrimStart(s);
    var r := TrimEnd(t);
    assert r != [] ==> r[0] == t[0];
    assert AllSpace(s) ==> t == [];
    r
  }

  /** How many whitespace characters `strip` removes from the front of `s`. */
  function LeadingSpace(s: string): (n: nat)
    ensures n <= |s|
  {
    |s| - |TrimStart(s)|
  }

  /** What `strip` keeps is a slice of `s` with only whitespace around it:
      it starts after the leading whitespace that `TrimStart` removes. */
  lemma {:induction false} StripIsTrimmedSlice(s: string)
    ensures var a := LeadingSpace(s);
      && a + |Strip(s)| <= |s| && Strip(s) == s[a..a + |Strip(s)|]
      && AllSpace(s[..a]) && AllSpace(s[a + |Strip(s)|..])
  {
    StripIsTrimEnd(s);
    TrimmedSlice(s, TrimStart(s), Strip(s), LeadingSpace(s));
  }

  lemma StripIsTrimEnd(s: string)
    ensures Strip(s) == TrimEnd(TrimStart(s)) && |TrimStart(s)| <= |s|
    ensures TrimStart(s) == s[|s| - |TrimStart(s)|..]
    ensures forall i :: 0 <= i < |s| - |TrimStart(s)| ==> IsSpace(s[i])
    ensures |Strip(s)| <= |TrimStart(s)| && Strip(s) == TrimStart(s)[..|Strip(s)|]
    ensures forall i :: |Strip(s)| <= i < |TrimStart(s)| ==> IsSpace(TrimStart(s)[i])
  {
  }

  /** A prefix `r` of a suffix `t` of `s`, with whitespace cut off either
      side, is a slice of `s` with only whitespace around it. */
  lemma TrimmedSlice(s: string, t: string, r: string, a: nat)
    requires a == |s| - |t|
    requires |t| <= |s| && t == s[|s| - |t|..] && forall i :: 0 <= i < |s| - |t| ==> IsSpace(s[i])
    requires |r| <= |t| && r == t[..|r|] && forall i :: |r| <= i < |t| ==> IsSpace(t[i])
    ensures a + |r| <= |s| && r == s[a..a + |r|]
    ensures AllSpace(s[..a]) && AllSpace(s[a + |r|..])
  {
    SpacePrefix(s, a);
    SpaceSuffix(t, |r|);
    DropDrop(s, a, |r|);
    TakeDrop(s, a, |r|);
  }

  lemma SpacePrefix(s: string, a: nat)
    requires a <= |s| && forall i :: 0 <= i < a ==> IsSpace(s[i])
    ensures AllSpace(s[..a])
  {
    assert forall i :: 0 <= i < a ==> s[..a][i] == s[i];
  }

  lemma SpaceSuffix(t: string, k: nat)
    requires k <= |t| && forall i :: k <= i < |t| ==> IsSpace(t[i])
    ensures AllSpace(t[k..])
  {
    assert forall i :: 0 <= i < |t| - k ==> t[k..][i] == t[k + i];
  }

  lemma DropDrop<T>(s: seq<T>, a: nat, k: nat)
    requires a + k <= |s|
    ensures s[a..][k..] == s[a + k..]
  {
  }

  lemma TakeDrop<T>(s: seq<T>, a: nat, k: nat)
    requires a + k <= |s|
    ensures s[a..][..k] == s[a..a + k]
  {
  }

  // ---------------------------------------------------------------------------
  // lower and replace

  predicate IsUpper(c: char) {
    'A' <= c <= 'Z'
  }

  function LowerChar(c: char): (d: char)
    ensures !IsUpper(d)
    ensures IsUpper(c) || d == c
  {
    if IsUpper(c) then (c as int + 32) as char else c
  }

  /** Python's `s.lower()` on the ASCII letters. */
  function ToLower(s: string): (r: string)
    ensures |r| == |s|
    ensures forall i :: 0 <= i < |s| ==> r[i] == LowerChar(s[i])
  {
    seq(|s|, i requires 0 <= i < |s| => LowerChar(s[i]))
  }

  /** Python's `s.replace(from, to)` for one-character `from` and `to`. */
  function ReplaceChar(s: string, from: char, to: char): (r: string)
    ensures |r| == |s|
    ensures forall i :: 0 <= i < |s| ==> r[i] == if s[i] == from then to else s[i]
  {
    seq(|s|, i requires 0 <= i < |s| => if s[i] == from then to else s[i])
  }

  // ---------------------------------------------------------------------------
  // split and join on one separator character

  /** Python's `s.split(sep)`: never empty (`''.split('\n') == ['']`), and no
      piece contains the separator. */
  function Split(s: string, sep: char): (r: seq<string>)
    ensures |r| >= 1
    ensures forall i :: 0 <= i < |r| ==> sep !in r[i]
    decreases |s|
  {
    if |s| == 0 then [""]
    else
      var rest := Split(s[1..], sep);
      if s[0] == sep then [""] + rest
      else [[s[0]] + rest[0]] + rest[1..]
  }

  /** Python's `sep.join(parts)`. */
  function Join(parts: seq<string>, sep: char): string
    decreases |parts|
  {
    if |parts| == 0 then ""
    else if |parts| == 1 then parts[0]
    else parts[0] + [sep] + Join(parts[1..], sep)
  }

  function Concat<T>(ss: seq<seq<T>>): seq<T>
    decreases |ss|
  {
    if ss == [] then [] else ss[0] + Concat(ss[1..])
  }

  /** `[sep.join(g) for g in groups]` */
  function JoinEach(groups: seq<seq<string>>, sep: char): (r: seq<string>)
    ensures |r| == |groups|
    ensures forall i :: 0 <= i < |r| ==> r[i] == Join(groups[i], sep)
    decreases |groups|
  {
    if groups == [] then [] else [Join(groups[0], sep)] + JoinEach(groups[1..], sep)
  }

  lemma JoinEachAppend(a: seq<seq<string>>, b: seq<seq<string>>, sep: char)
    ensures JoinEach(a + b, sep) == JoinEach(a, sep) + JoinEach(b, sep)
  {
    assert forall i :: 0 <= i < |a + b| ==> JoinEach(a + b, sep)[i] == (JoinEach(a, sep) + JoinEach(b, sep))[i];
  }

  lemma JoinEachSnoc(a: seq<seq<string>>, g: seq<string>, sep: char)
    ensures JoinEach(a + [g], sep) == JoinEach(a, sep) + [Join(g, sep)]
  {
    JoinEachAppend(a, [g], sep);
  }

  /** `[s.split(sep) for s in parts]` */
  function SplitEach(parts: seq<string>, sep: char): (r: seq<seq<string>>)
    ensures |r| == |parts|
    ensures forall i :: 0 <= i < |r| ==> r[i] == Split(parts[i], sep)
    decreases |parts|
  {
    if parts == [] then [] else [Split(parts[0], sep)] + SplitEach(parts[1..], sep)
  }

  /** Joining the pieces of a split gives back the string. */
  lemma {:induction false} JoinSplit(s: string, sep: char)
    ensures Join(Split(s, sep), sep) == s
    decreases |s|
  {
    if |s| > 0 {
      var rest := Split(s[1..], sep);
      JoinSplit(s[1..], sep);
      if s[0] == sep {
        assert ([""] + rest)[1..] == rest;
        assert s == [sep] + s[1..];
      } else if |rest| == 1 {
        assert s == [s[0]] + s[1..];
      } else {
        var r := [[s[0]] + rest[0]] + rest[1..];
        assert r[1..] == rest[1..];
        assert Join(rest, sep) == rest[0] + [sep] + Join(rest[1..], sep);
        assert s == [s[0]] + s[1..];
      }
    }
  }

  lemma {:induction false} SplitWithoutSep(a: string, sep: char)
    requires sep !in a
    ensures Split(a, sep) == [a]
    decreases |a|
  {
    if |a| > 0 {
      SplitWithoutSep(a[1..], sep);
      assert a == [a[0]] + a[1..];
    }
  }

  /** Splitting at one separator splits each side on its own. */
  lemma {:induction false} SplitAround(a: string, b: string, sep: char)
    ensures Split(a + [sep] + b, sep) == Split(a, sep) + Split(b, sep)
    decreases |a|
  {
    var s := a + [sep] + b;
    if |a| == 0 {
      assert s[1..] == b;
    } else {
      assert s[1..] == a[1..] + [sep] + b;
      SplitAround(a[1..], b, sep);
    }
  }

  /** Splitting `a + sep + b` where `a` holds no separator peels off `a`. */
  lemma SplitAfterPiece(a: string, b: string, sep: char)
    requires sep !in a
    ensures Split(a + [sep] + b, sep) == [a] + Split(b, sep)
  {
    SplitAround(a, b, sep);
    SplitWithoutSep(a, sep);
  }

  /** `f"{a}\n{b}\n{c}\n\n".split('\n')` for separator-free `a` and `b`. */
  lemma SplitRecord(a: string, b: string, c: string, sep: char)
    requires sep !in a && sep !in b
    ensures Split(a + [sep] + b + [sep] + c + [sep, sep], sep) == [a, b] + Split(c, sep) + ["", ""]
  {
    var tail := [] + [sep] + [];
    var inner := c + [sep] + tail;
    var middle := b + [sep] + inner;
    assert a + [sep] + b + [sep] + c + [sep, sep] == a + [sep] + middle;
    SplitAfterPiece(a, middle, sep);
    SplitAfterPiece(b, inner, sep);
    SplitAround(c, tail, sep);
    SplitAround([], [], sep);
  }

  /** Splitting a join of separator-free pieces gives back the pieces. */
  lemma {:induction false} SplitJoin(parts: seq<string>, sep: char)
    requires |parts| >= 1
    requires forall i :: 0 <= i < |parts| ==> sep !in parts[i]
    ensures Split(Join(parts, sep), sep) == parts
    decreases |parts|
  {
    if |parts| == 1 {
      SplitWithoutSep(parts[0], sep);
    } else {
      SplitJoin(parts[1..], sep);
      SplitAfterPiece(parts[0], Join(parts[1..], sep), sep);
      assert parts == [parts[0]] + parts[1..];
    }
  }

  lemma {:induction false} JoinAppend(a: seq<string>, b: seq<string>, sep: char)
    requires |a| >= 1 && |b| >= 1
    ensures Join(a + b, sep) == Join(a, sep) + [sep] + Join(b, sep)
    decreases |a|
  {
    if |a| == 1 {
      assert (a + b)[1..] == b;
    } else {
      JoinAppend(a[1..], b, sep);
      assert (a + b)[1..] == a[1..] + b;
    }
  }

  /** Joining the joined groups is joining their concatenation, as long as no
      group is empty. */
  lemma {:induction false} JoinJoinEach(groups: seq<seq<string>>, sep: char)
    requires forall i :: 0 <= i < |groups| ==> groups[i] != []
    ensures Join(JoinEach(groups, sep), sep) == Join(Concat(groups), sep)
    decreases |groups|
  {
    if |groups| > 1 {
      JoinJoinEach(groups[1..], sep);
      assert Concat(groups[1..]) != [] by {
        assert Concat(groups[1..]) == groups[1] + Concat(groups[2..]);
      }
      JoinAppend(groups[0], Concat(groups[1..]), sep);
    } else if |groups| == 1 {
      assert groups[1..] == [];
      assert Concat(groups) == groups[0] + Concat(groups[1..]);
      assert Concat(groups) == groups[0];
      assert JoinEach(groups, sep) == [Join(groups[0], sep)];
    }
  }

  lemma {:induction false} ConcatAppend<T>(a: seq<seq<T>>, b: seq<seq<T>>)
    ensures Concat(a + b) == Concat(a) + Concat(b)
    decreases |a|
  {
    if a != [] {
      ConcatAppend(a[1..], b);
      assert (a + b)[1..] == a[1..] + b;
    } else {
      assert a + b == b;
    }
  }

  lemma ConcatSnoc<T>(a: seq<seq<T>>, b: seq<T>)
    ensures Concat(a + [b]) == Concat(a) + b
  {
    ConcatAppend(a, [b]);
    assert Concat([b]) == b + Concat<T>([]);
  }

  lemma NotInAppend3<T>(a: seq<T>, b: seq<T>, c: seq<T>, x: T)
    requires x !in a && x !in b && x !in c
    ensures x !in a + b + c
  {
  }

  /** Dropping past the whole of `a` drops into `b`. */
  lemma DropAppend<T>(a: seq<T>, b: seq<T>, k: nat)
    requires k <= |b|
    ensures (a + b)[|a| + k..] == b[k..]
  {
  }

  lemma SliceOfPrefix<T>(s: seq<T>, p: nat, i: nat, j: nat)
    requires i <= j <= p <= |s|
    ensures s[..p][i..j] == s[i..j]
  {
  }

  /** The three pieces of `a + b + c` can be sliced back out of it. */
  lemma Slices3<T>(a: seq<T>, b: seq<T>, c: seq<T>)
    ensures (a + b + c)[..|a|] == a
    ensures (a + b + c)[|a|..|a| + |b|] == b
    ensures (a + b + c)[|a| + |b|..] == c
  {
    assert (a + b + c)[..|a|] == a;
    assert (a + b + c)[|a|..|a| + |b|] == b;
    assert (a + b + c)[|a| + |b|..] == c;
  }

  lemma AppendAssoc<T>(a: seq<T>, b: seq<T>, c: seq<T>)
    ensures a + b + c == a + (b + c)
  {
  }

  /** `[f(1, s[0]), f(2, s[1]), ...]`: each element with its position,
      counted from 1. */
  function Numbered<T, U>(f: (nat, T) -> U, s: seq<T>): (r: seq<U>)
    ensures |r| == |s|
    decreases |s|
  {
    if s == [] then [] else Numbered(f, s[..|s| - 1]) + [f(|s|, s[|s| - 1])]
  }

  lemma {:induction false} NumberedAt<T, U>(f: (nat, T) -> U, s: seq<T>, k: nat)
    requires k < |s|
    ensures Numbered(f, s)[k] == f(k + 1, s[k])
    decreases |s|
  {
    if k < |s| - 1 {
      NumberedAt(f, s[..|s| - 1], k);
    }
  }

  /** Python's `s.find(c)`, with `|s|` standing for "not found". */
  function IndexOf(s: string, c: char): (r: nat)
    ensures r <= |s|
    ensures r < |s| ==> s[r] == c
    ensures forall k :: 0 <= k < r ==> s[k] != c
    decreases |s|
  {
    if |s| == 0 then 0 else if s[0] == c then 0 else 1 + IndexOf(s[1..], c)
  }

  /** The first `c` of `a + rest` is the one `rest` starts with, when `a`
      has none. */
  lemma IndexOfAfter(a: string, rest: string, c: char)
    requires forall k :: 0 <= k < |a| ==> a[k] != c
    requires |rest| > 0 && rest[0] == c
    ensures IndexOf(a + rest, c) == |a|
  {
    assert (a + rest)[|a|] == c;
  }

  /** The first piece of a split is everything before the first separator. */
  lemma {:induction false} SplitHead(s: string, sep: char)
    ensures Split(s, sep)[0] == s[..IndexOf(s, sep)]
    decreases |s|
  {
    if |s| > 0 && s[0] != sep {
      SplitHead(s[1..], sep);
      assert s[..IndexOf(s, sep)] == [s[0]] + s[1..][..IndexOf(s[1..], sep)];
    }
  }

  /** Python's `s.rfind(c)`: the last index holding `c`, or -1. */
  function LastIndexOf(s: string, c: char): (r: int)
    ensures -1 <= r < |s|
    ensures r >= 0 ==> s[r] == c
    ensures forall k :: r < k < |s| ==> s[k] != c
    decreases |s|
  {
    if |s| == 0 then -1
    else if s[|s| - 1] == c then |s| - 1
    else LastIndexOf(s[..|s| - 1], c)
  }

  /** The last `c` of `a + b` is in `b` if `b` has one. */
  lemma {:induction false} LastIndexOfAppend(a: string, b: string, c: char)
    ensures LastIndexOf(a + b, c) ==
      if LastIndexOf(b, c) >= 0 then |a| + LastIndexOf(b, c) else LastIndexOf(a, c)
    decreases |b|
  {
    if |b| == 0 {
      assert a + b == a;
    } else if b[|b| - 1] != c {
      LastIndexOfAppend(a, b[..|b| - 1], c);
      assert (a + b)[..|a + b| - 1] == a + b[..|b| - 1];
    }
  }

  // ---------------------------------------------------------------------------
  // re.split(r'\n\s*\n', s)

  /** Index just past the run of whitespace that starts at `i`. */
  function SpaceRunEnd(s: string, i: nat): (e: nat)
    requires i <= |s|
    ensures i <= e <= |s|
    ensures forall k :: i <= k < e ==> IsSpace(s[k])
    ensures e == |s| || !IsSpace(s[e])
    decreases |s| - i
  {
    if i < |s| && IsSpace(s[i]) then SpaceRunEnd(s, i + 1) else i
  }

  /** The last newline in `s[lo..hi]`, if there is one. */
  function LastNewline(s: string, lo: nat, hi: nat): (r: Option<nat>)
    requires lo <= hi <= |s|
    ensures r.Some? ==> lo <= r.value < hi && s[r.value] == '\n'
    ensures r.Some? ==> forall k :: r.value < k < hi ==> s[k] != '\n'
    ensures r.None? ==> forall k :: lo <= k < hi ==> s[k] != '\n'
    decreases hi - lo
  {
    if lo == hi then None
    else if s[hi - 1] == '\n' then Some(hi - 1)
    else LastNewline(s, lo, hi - 1)
  }

  /** Where a match of `\n\s*\n` that starts at `p` ends: the index of its
      closing newline. The greedy `\s*` takes the whole whitespace run after
      the first newline and gives characters back until a newline follows. */
  function SeparatorEnd(s: string, p: nat): (r: Option<nat>)
    requires p < |s|
    ensures r.Some? ==> p < r.value < |s|
  {
    if s[p] != '\n' then None else LastNewline(s, p + 1, SpaceRunEnd(s, p + 1))
  }

  /** The leftmost match at or after `p`, as (start, index of closing newline). */
  function FirstSeparator(s: string, p: nat): (r: Option<(nat, nat)>)
    requires p <= |s|
    ensures r.Some? ==> p <= r.value.0 < r.value.1 < |s|
    ensures r.Some? ==> forall k :: p <= k < r.value.0 ==> SeparatorEnd(s, k).None?
    ensures r.None? ==> forall k :: p <= k < |s| ==> SeparatorEnd(s, k).None?
    decreases |s| - p
  {
    if p == |s| then None
    else match SeparatorEnd(s, p)
      case Some(q) => Some((p, q))
      case None => FirstSeparator(s, p + 1)
  }

  /** `re.split(r'\n\s*\n', s)`: the pieces between the leftmost
      non-overlapping matches, searching on after each match. */
  function SplitBlocks(s: string): (r: seq<string>)
    ensures |r| >= 1
    decreases |s|
  {
    match FirstSeparator(s, 0)
    case None => [s]
    case Some((p, q)) => [s[..p]] + SplitBlocks(s[q + 1..])
  }

  /** The separators `re.split(r'\n\s*\n', s)` cuts at, in order. */
  function Separators(s: string): (r: seq<string>)
    ensures |r| == |SplitBlocks(s)| - 1
    decreases |s|
  {
    match FirstSeparator(s, 0)
    case None => []
    case Some((p, q)) => [s[p..q + 1]] + Separators(s[q + 1..])
  }

  /** The pieces with the separators put back between them. */
  function Interleave(pieces: seq<string>, seps: seq<string>): string
    requires |pieces| == |seps| + 1
    decreases |seps|
  {
    if seps == [] then pieces[0]
    else pieces[0] + seps[0] + Interleave(pieces[1..], seps[1..])
  }

  /** The pieces, rejoined with the separators they were cut at, give back
      `s`: `re.split` loses nothing but the separators. */
  lemma {:induction false} SplitBlocksRejoin(s: string)
    ensures Interleave(SplitBlocks(s), Separators(s)) == s
    decreases |s|
  {
    match FirstSeparator(s, 0)
    case None =>
    case Some((p, q)) =>
      SplitBlocksRejoin(s[q + 1..]);
      RejoinStep(s, p, q, SplitBlocks(s[q + 1..]), Separators(s[q + 1..]));
  }

  /** One step of the rejoin: the first piece and separator in front of the
      rejoined rest. */
  lemma RejoinStep(s: string, p: nat, q: nat, pieces: seq<string>, seps: seq<string>)
    requires p <= q < |s| && |pieces| == |seps| + 1
    requires Interleave(pieces, seps) == s[q + 1..]
    ensures Interleave([s[..p]] + pieces, [s[p..q + 1]] + seps) == s
  {
    ConsParts(s[..p], pieces);
    ConsParts(s[p..q + 1], seps);
    CutTwice(s, p, q + 1);
  }

  lemma ConsParts<T>(x: T, xs: seq<T>)
    ensures ([x] + xs)[0] == x && ([x] + xs)[1..] == xs
  {
  }

  lemma CutTwice<T>(s: seq<T>, i: nat, j: nat)
    requires i <= j <= |s|
    ensures s[..i] + s[i..j] + s[j..] == s
  {
    assert s[..i] + s[i..j] == s[..j];
  }

  /** Two newlines with nothing but whitespace between them. */
  ghost predicate HasBlankLine(b: string) {
    exists i, j :: 0 <= i < j < |b| && b[i] == '\n' && b[j] == '\n' && AllSpace(b[i + 1..j])
  }

  /** A blank line starting at `i` is a match of `\n\s*\n` at `i`. */
  lemma BlankLineIsSeparator(s: string, i: nat, j: nat)
    requires i < j < |s| && s[i] == '\n' && s[j] == '\n'
    requires AllSpace(s[i + 1..j])
    ensures SeparatorEnd(s, i).Some?
  {
    var e := SpaceRunEnd(s, i + 1);
    assert j < e;
  }

  lemma NoBlankLineBeforeSeparator(s: string, p: nat)
    requires p <= |s|
    requires forall k :: 0 <= k < p ==> SeparatorEnd(s, k).None?
    ensures !HasBlankLine(s[..p])
  {
    if HasBlankLine(s[..p]) {
      var b := s[..p];
      var i, j :| 0 <= i < j < |b| && b[i] == '\n' && b[j] == '\n' && AllSpace(b[i + 1..j]);
      SliceOfPrefix(s, p, i + 1, j);
      BlankLineIsSeparator(s, i, j);
      assert false;
    }
  }

  /** No piece of `re.split(r'\n\s*\n', s)` contains a blank line. */
  lemma {:induction false} SplitBlocksHaveNoBlankLine(s: string)
    ensures forall i :: 0 <= i < |SplitBlocks(s)| ==> !HasBlankLine(SplitBlocks(s)[i])
    decreases |s|
  {
    match FirstSeparator(s, 0)
    case None =>
      NoBlankLineBeforeSeparator(s, |s|);
      assert s[..|s|] == s;
    case Some((p, q)) =>
      NoBlankLineBeforeSeparator(s, p);
      SplitBlocksHaveNoBlankLine(s[q + 1..]);
  }
}
