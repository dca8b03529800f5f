/**
 * The parts of Python's `str` that the summariser relies on, over code
 * points (Python's `len` counts code points, as does `|s|` on a Dafny
 * `string` of Unicode chars): `isspace`, `strip()`, `split(sep)`, `split()`,
 * `splitlines()`, `sep.join(parts)` and the slice `s[:n]`.
 */
module PyStr {

  /** `c.isspace()`: the characters `strip()` and `split()` treat as whitespace. */
  predicate IsSpace(c: char) {
    c == ' ' || ('\t' <= c <= '\r') || ('\U{1C}' <= c <= '\U{1F}') || c == '\U{85}' || c == '\U{A0}'
    || c == '\U{1680}' || ('\U{2000}' <= c <= '\U{200A}') || c == '\U{2028}' || c == '\U{2029}'
    || c == '\U{202F}' || c == '\U{205F}' || c == '\U{3000}'
  }

  /** The line boundaries of `splitlines()` ("\r\n" is handled there as one boundary). */
  predicate IsLineBreak(c: char) {
    ('\n' <= c <= '\r') || ('\U{1C}' <= c <= '\U{1E}') || c == '\U{85}' || c == '\U{2028}' || c == '\U{2029}'
  }

  predicate NoLineBreak(s: string) {
    forall c :: c in s ==> !IsLineBreak(c)
  }

  /** `sep` starts at position `i` of `s`. */
  predicate OccursAt(s: string, sep: string, i: int) {
    0 <= i && i + |sep| <= |s| && s[i..i + |sep|] == sep
  }

  /** `sep not in s`. */
  predicate Free(s: string, sep: string) {
    forall i :: 0 <= i <= |s| ==> !OccursAt(s, sep, i)
  }

  /** No two consecutive spaces. */
  predicate NoDoubleSpace(s: string) {
    Free(s, "  ")
  }

  lemma DoubleSpaceAt(s: string, i: int)
    ensures OccursAt(s, "  ", i) <==> 0 <= i && i + 1 < |s| && s[i] == ' ' && s[i + 1] == ' '
  {
    if 0 <= i && i + 1 < |s| {
      assert s[i..i + 2] == [s[i], s[i + 1]];
    }
  }

  /** The characters of `s` that are not whitespace, in order. */
  function Visible(s: string): string {
    if s == [] then [] else (if IsSpace(s[0]) then [] else [s[0]]) + Visible(s[1..])
  }

  /** The visible characters of several strings, one after the other. */
  function VisibleAll(parts: seq<string>): string {
    if parts == [] then [] else Visible(parts[0]) + VisibleAll(parts[1..])
  }

  lemma {:induction false} VisibleConcat(a: string, b: string)
    ensures Visible(a + b) == Visible(a) + Visible(b)
  {
    if a == [] {
      assert a + b == b;
    } else {
      assert (a + b)[1..] == a[1..] + b;
      VisibleConcat(a[1..], b);
    }
  }

  lemma {:induction false} VisibleAllConcat(a: seq<string>, b: seq<string>)
    ensures VisibleAll(a + b) == VisibleAll(a) + VisibleAll(b)
  {
    if a == [] {
      assert a + b == b;
    } else {
      assert (a + b)[1..] == a[1..] + b;
      VisibleAllConcat(a[1..], b);
    }
  }

  /** A string has no visible character exactly when it is all whitespace. */
  lemma {:induction false} VisibleEmpty(s: string)
    ensures Visible(s) == [] <==> forall i :: 0 <= i < |s| ==> IsSpace(s[i])
  {
    if s != [] {
      VisibleEmpty(s[1..]);
      assert forall i :: 1 <= i < |s| ==> s[i] == s[1..][i - 1];
    }
  }

  /** `s.lstrip()`. */
  function TrimStart(s: string): (r: string)
    ensures |r| <= |s|
  {
    if s != [] && IsSpace(s[0]) then TrimStart(s[1..]) else s
  }

  /** `TrimStart` drops the longest all-whitespace prefix. */
  lemma {:induction false} TrimStartShape(s: string)
    ensures var r := TrimStart(s);
      && r == s[|s| - |r|..]
      && (r == [] || !IsSpace(r[0]))
      && (forall i :: 0 <= i < |s| - |r| ==> IsSpace(s[i]))
  {
    if s != [] && IsSpace(s[0]) {
      TrimStartShape(s[1..]);
      assert forall i :: 1 <= i < |s| ==> s[i] == s[1..][i - 1];
    }
  }

  /** `s.rstrip()`. */
  function TrimEnd(s: string): (r: string)
    ensures |r| <= |s|
  {
    if s != [] && IsSpace(s[|s| - 1]) then TrimEnd(s[..|s| - 1]) else s
  }

  /** `TrimEnd` drops the longest all-whitespace suffix. */
  lemma {:induction false} TrimEndShape(s: string)
    ensures var r := TrimEnd(s);
      && r == s[..|r|]
      && (r == [] || !IsSpace(r[|r| - 1]))
      && (forall i :: |r| <= i < |s| ==> IsSpace(s[i]))
  {
    if s != [] && IsSpace(s[|s| - 1]) {
      TrimEndShape(s[..|s| - 1]);
    }
  }

  /** Where `Strip(s)` starts inside `s`. */
  function StripStart(s: string): nat {
    |s| - |TrimStart(s)|
  }

  /** `s.strip()`. */
  function Strip(s: string): (r: string)
    ensures StripStart(s) + |r| <= |s|
  {
    TrimEnd(TrimStart(s))
  }

  /** `Strip(s)` is the infix of `s` left once leading and trailing whitespace is gone. */
  lemma StripShape(s: string)
    ensures var a, r := StripStart(s), Strip(s);
      && r == s[a..a + |r|]
      && (r == [] || (!IsSpace(r[0]) && !IsSpace(r[|r| - 1])))
      && (forall i :: 0 <= i < a ==> IsSpace(s[i]))
      && (forall i :: a + |r| <= i < |s| ==> IsSpace(s[i]))
  {
    TrimStartShape(s);
    TrimEndShape(TrimStart(s));
  }

  /** Stripping removes only whitespace. */
  lemma StripVisible(s: string)
    ensures Visible(Strip(s)) == Visible(s)
  {
    var a, r := StripStart(s), Strip(s);
    StripShape(s);
    assert s == s[..a] + r + s[a + |r|..];
    VisibleConcat(s[..a] + r, s[a + |r|..]);
    VisibleConcat(s[..a], r);
    VisibleEmpty(s[..a]);
    VisibleEmpty(s[a + |r|..]);
  }

  /** A string with no whitespace at either end is its own strip. */
  lemma StripStripped(s: string)
    requires s == [] || (!IsSpace(s[0]) && !IsSpace(s[|s| - 1]))
    ensures Strip(s) == s
  {
  }

  /** An infix of a string that does not contain `sep` does not contain it either. */
  lemma FreeInfix(s: string, sep: string, a: int, b: int)
    requires 0 <= a <= b <= |s| && Free(s, sep)
    ensures Free(s[a..b], sep)
  {
    var t := s[a..b];
    forall i | 0 <= i <= |t| ensures !OccursAt(t, sep, i) {
      if OccursAt(t, sep, i) {
        var x, y := t[i..i + |sep|], s[a + i..a + i + |sep|];
        assert forall j :: 0 <= j < |sep| ==> x[j] == y[j];
        assert x == y;
        assert OccursAt(s, sep, a + i);
      }
    }
  }

  /** A one-character separator occurs in `s` exactly when the character does. */
  lemma FreeChar(s: string, c: char)
    ensures Free(s, [c]) <==> c !in s
  {
    if c in s {
      var i :| 0 <= i < |s| && s[i] == c;
      assert s[i..i + 1] == [c];
      assert OccursAt(s, [c], i);
    }
    forall i | 0 <= i <= |s| && OccursAt(s, [c], i) ensures c in s {
      assert s[i] == s[i..i + 1][0];
    }
  }

  /** An infix of a string keeps its freedom from line breaks and from double spaces. */
  lemma Infix(s: string, a: int, b: int)
    requires 0 <= a <= b <= |s|
    ensures NoLineBreak(s) ==> NoLineBreak(s[a..b])
    ensures NoDoubleSpace(s) ==> NoDoubleSpace(s[a..b])
  {
    var t := s[a..b];
    forall c | c in t ensures c in s {
      var j :| 0 <= j < |t| && t[j] == c;
      assert s[a + j] == c;
    }
    if NoDoubleSpace(s) {
      FreeInfix(s, "  ", a, b);
    }
  }

  /** Python's `s[:n]`. */
  function Take(s: string, n: nat): (r: string)
    ensures r <= s && |r| <= n
    ensures |r| < n ==> r == s
  {
    if |s| <= n then s else s[..n]
  }

  /** `sep.join(parts)`. */
  function Join(sep: string, parts: seq<string>): string {
    if parts == [] then []
    else if |parts| == 1 then parts[0]
    else parts[0] + sep + Join(sep, parts[1..])
  }

  /** Gluing a prefix onto the first part glues it onto the joined string. */
  lemma JoinConsHead(x: string, sep: string, parts: seq<string>)
    requires |parts| >= 1
    ensures Join(sep, [x + parts[0]] + parts[1..]) == x + Join(sep, parts)
  {
    var p := [x + parts[0]] + parts[1..];
    if |parts| > 1 {
      assert p[1..] == parts[1..];
    }
  }

  /** Joining with a whitespace separator keeps exactly the visible characters of the parts. */
  lemma {:induction false} VisibleJoin(sep: string, parts: seq<string>)
    requires Visible(sep) == []
    ensures Visible(Join(sep, parts)) == VisibleAll(parts)
  {
    if |parts| == 1 {
      assert parts[1..] == [];
    } else if |parts| > 1 {
      VisibleJoin(sep, parts[1..]);
      VisibleConcat(parts[0] + sep, Join(sep, parts[1..]));
      VisibleConcat(parts[0], sep);
    }
  }

  /** `s.split(sep)` for a non-empty separator: cut at every occurrence of
      `sep`, found left to right without overlap; never an empty list. */
  function Split(s: string, sep: string): (r: seq<string>)
    requires sep != []
    ensures |r| >= 1 && |r[0]| <= |s| && r[0] == s[..|r[0]|]
    decreases |s|
  {
    if |s| < |sep| then [s]
    else if s[..|sep|] == sep then [""] + Split(s[|sep|..], sep)
    else
      var r := Split(s[1..], sep);
      [[s[0]] + r[0]] + r[1..]
  }

  /** `sep.join(s.split(sep)) == s`. */
  lemma {:induction false} JoinSplit(s: string, sep: string)
    requires sep != []
    ensures Join(sep, Split(s, sep)) == s
    decreases |s|
  {
    if |s| < |sep| {
    } else if s[..|sep|] == sep {
      var rest := Split(s[|sep|..], sep);
      var r := [""] + rest;
      assert Split(s, sep) == r;
      JoinSplit(s[|sep|..], sep);
      assert r[1..] == rest && |r| > 1;
      calc {
        Join(sep, r);
        r[0] + sep + Join(sep, r[1..]);
        "" + sep + s[|sep|..];
        { assert s == s[..|sep|] + s[|sep|..]; }
        s;
      }
    } else {
      var t := Split(s[1..], sep);
      assert Split(s, sep) == [[s[0]] + t[0]] + t[1..];
      JoinSplit(s[1..], sep);
      JoinConsHead([s[0]], sep, t);
      assert s == [s[0]] + s[1..];
    }
  }

  /** An occurrence of `sep` in `s[1..]` is one in `s`, one place further on. */
  lemma OccursAtTail(s: string, sep: string, i: int)
    requires s != [] && 0 <= i
    ensures OccursAt(s[1..], sep, i) <==> OccursAt(s, sep, i + 1)
  {
    if i + |sep| <= |s| - 1 {
      assert s[1..][i..i + |sep|] == s[i + 1..i + 1 + |sep|];
    }
  }

  /** Without an occurrence of `sep`, `s.split(sep)` is `[s]`. */
  lemma {:induction false} SplitFree(s: string, sep: string)
    requires sep != [] && Free(s, sep)
    ensures Split(s, sep) == [s]
    decreases |s|
  {
    if |s| >= |sep| {
      assert s[0..|sep|] == s[..|sep|] && !OccursAt(s, sep, 0);
      forall i | 0 <= i <= |s| - 1 ensures !OccursAt(s[1..], sep, i) {
        OccursAtTail(s, sep, i);
      }
      SplitFree(s[1..], sep);
      assert s == [s[0]] + s[1..];
    }
  }

  /** `split` cuts left to right: the first piece is `s` up to the first occurrence of `sep`,
      and the rest is the split of what follows that occurrence. */
  lemma {:induction false} SplitAtFirst(s: string, sep: string, j: nat)
    requires sep != [] && OccursAt(s, sep, j)
    requires forall i :: 0 <= i < j ==> !OccursAt(s, sep, i)
    ensures Split(s, sep) == [s[..j]] + Split(s[j + |sep|..], sep)
    decreases j
  {
    assert s[0..|sep|] == s[..|sep|];
    if j > 0 {
      assert !OccursAt(s, sep, 0);
      forall i | 0 <= i < j - 1 ensures !OccursAt(s[1..], sep, i) {
        OccursAtTail(s, sep, i);
      }
      OccursAtTail(s, sep, j - 1);
      SplitAtFirst(s[1..], sep, j - 1);
      SliceOfTail(s, j, j + |sep|);
      assert s[1..][j - 1 + |sep|..] == s[j + |sep|..];
      SplitAtFirstStep(s, sep, j, s[1..][..j - 1], Split(s[1..][j - 1 + |sep|..], sep));
    }
  }

  lemma SplitAtFirstStep(s: string, sep: string, j: nat, head: string, rest: seq<string>)
    requires sep != [] && 0 < j && j + |sep| <= |s| && s[..|sep|] != sep
    requires Split(s[1..], sep) == [head] + rest
    requires [s[0]] + head == s[..j]
    requires rest == Split(s[j + |sep|..], sep)
    ensures Split(s, sep) == [s[..j]] + Split(s[j + |sep|..], sep)
  {
  }

  lemma SliceOfTail(s: string, j: nat, k: nat)
    requires 0 < j <= k <= |s|
    ensures [s[0]] + s[1..][..j - 1] == s[..j]
    ensures s[1..][k - 1..] == s[k..]
  {
  }

  /** No piece of `s.split(sep)` contains `sep`. */
  lemma {:induction false} SplitPiecesFree(s: string, sep: string)
    requires sep != []
    ensures forall k :: 0 <= k < |Split(s, sep)| ==> Free(Split(s, sep)[k], sep)
    decreases |s|
  {
    var r := Split(s, sep);
    if |s| < |sep| {
    } else if s[..|sep|] == sep {
      SplitPiecesFree(s[|sep|..], sep);
      assert r == [""] + Split(s[|sep|..], sep);
      forall k | 0 <= k < |r| ensures Free(r[k], sep) {
        if k > 0 {
          assert r[k] == Split(s[|sep|..], sep)[k - 1];
        }
      }
    } else {
      var t := Split(s[1..], sep);
      SplitPiecesFree(s[1..], sep);
      var p := [s[0]] + t[0];
      assert p == s[..|p|];
      forall i | 0 < i <= |p| && i + |sep| <= |p|
        ensures !OccursAt(p, sep, i)
      {
        assert p[i..i + |sep|] == t[0][i - 1..i - 1 + |sep|];
        assert Free(t[0], sep);
        assert !OccursAt(t[0], sep, i - 1);
      }
      assert !OccursAt(p, sep, 0) by {
        assert |sep| <= |p| ==> p[..|sep|] == s[..|sep|];
      }
      forall k | 0 <= k < |r| ensures Free(r[k], sep) {
        if k > 0 {
          assert r[k] == t[k];
        }
      }
    }
  }

  /** Every character of a piece of `s.split(sep)` is a character of `s`. */
  lemma {:induction false} SplitPiecesWithin(s: string, sep: string)
    requires sep != []
    ensures forall k, c :: 0 <= k < |Split(s, sep)| && c in Split(s, sep)[k] ==> c in s
    decreases |s|
  {
    var r := Split(s, sep);
    if |s| < |sep| {
    } else if s[..|sep|] == sep {
      SplitPiecesWithin(s[|sep|..], sep);
      forall k, c | 0 <= k < |r| && c in r[k] ensures c in s {
        assert r[k] == Split(s[|sep|..], sep)[k - 1];
        assert c in s[|sep|..];
      }
    } else {
      var t := Split(s[1..], sep);
      SplitPiecesWithin(s[1..], sep);
      forall k, c | 0 <= k < |r| && c in r[k] ensures c in s {
        if k == 0 {
          assert c == s[0] || c in t[0];
        } else {
          assert r[k] == t[k];
        }
        assert c in s[1..] ==> c in s;
      }
    }
  }

  /** The pieces of `s.split(sep)` for a whitespace separator hold exactly the visible characters of `s`. */
  lemma SplitVisible(s: string, sep: string)
    requires sep != [] && Visible(sep) == []
    ensures VisibleAll(Split(s, sep)) == Visible(s)
  {
    JoinSplit(s, sep);
    VisibleJoin(sep, Split(s, sep));
  }

  /** `s.splitlines()`: pieces between line boundaries, "\r\n" counting once,
      and no empty piece after a final boundary. */
  function SplitLines(s: string): (r: seq<string>)
    ensures forall k :: 0 <= k < |r| ==> NoLineBreak(r[k])
    decreases |s|
  {
    if s == [] then []
    else if IsLineBreak(s[0]) then
      [""] + SplitLines(s[if s[0] == '\r' && |s| > 1 && s[1] == '\n' then 2 else 1..])
    else
      var r := SplitLines(s[1..]);
      if r == [] then [[s[0]]] else [[s[0]] + r[0]] + r[1..]
  }

  /** A non-empty string without a line boundary is one line. */
  lemma {:induction false} SplitLinesOfLine(s: string)
    requires s != [] && NoLineBreak(s)
    ensures SplitLines(s) == [s]
    decreases |s|
  {
    assert s[0] in s;
    if |s| > 1 {
      assert forall c :: c in s[1..] ==> c in s;
      SplitLinesOfLine(s[1..]);
      assert s == [s[0]] + s[1..];
    } else {
      assert s[1..] == [] && s == [s[0]];
    }
  }

  /** `splitlines()` cuts at a line boundary other than the `'\r'` of a `"\r\n"`: the line before it,
      then the lines of what follows it. */
  lemma {:induction false} SplitLinesAtBreak(a: string, c: char, b: string)
    requires NoLineBreak(a) && IsLineBreak(c) && !(c == '\r' && b != [] && b[0] == '\n')
    ensures SplitLines(a + [c] + b) == [a] + SplitLines(b)
    decreases |a|
  {
    AroundSpace(a, c, b, if a == [] then 0 else 1);
    if a == [] {
      assert a + [c] + b == [c] + b && ([c] + b)[1..] == b;
    } else {
      assert a[0] in a;
      assert forall x :: x in a[1..] ==> x in a;
      SplitLinesAtBreak(a[1..], c, b);
      assert a == [a[0]] + a[1..];
    }
  }

  /** `"\r\n"` is a single line boundary. */
  lemma {:induction false} SplitLinesAtCrLf(a: string, b: string)
    requires NoLineBreak(a)
    ensures SplitLines(a + "\r\n" + b) == [a] + SplitLines(b)
    decreases |a|
  {
    var s := a + "\r\n" + b;
    if a == [] {
      assert s == "\r\n" + b && s[0] == '\r' && s[1] == '\n' && s[2..] == b;
    } else {
      assert s[0] == a[0] && s[1..] == a[1..] + "\r\n" + b;
      assert a[0] in a;
      assert forall x :: x in a[1..] ==> x in a;
      SplitLinesAtCrLf(a[1..], b);
      assert a == [a[0]] + a[1..];
    }
  }

  /** Each word of `s.split()` is non-empty and free of whitespace. */
  predicate IsWord(w: string) {
    w != [] && forall i :: 0 <= i < |w| ==> !IsSpace(w[i])
  }

  /** The run of non-whitespace characters that `s` starts with. */
  function LeadingWord(s: string): (r: string)
    ensures |r| <= |s| && r == s[..|r|]
    ensures forall i :: 0 <= i < |r| ==> !IsSpace(r[i])
    ensures |r| < |s| ==> IsSpace(s[|r|])
  {
    if s == [] || IsSpace(s[0]) then [] else [s[0]] + LeadingWord(s[1..])
  }

  /** `s.split()`: the maximal runs of non-whitespace characters, in order. */
  function Words(s: string): (r: seq<string>)
    ensures forall k :: 0 <= k < |r| ==> IsWord(r[k])
    decreases |s|
  {
    if s == [] then []
    else if IsSpace(s[0]) then Words(s[1..])
    else
      var w := LeadingWord(s);
      [w] + Words(s[|w|..])
  }

  /** `len(s.split())`, the `word_count` of a response. */
  function WordCount(s: string): nat {
    |Words(s)|
  }

  /** The words of `s` together hold exactly its visible characters. */
  lemma {:induction false} WordsVisible(s: string)
    ensures VisibleAll(Words(s)) == Visible(s)
    decreases |s|
  {
    if s == [] {
    } else if IsSpace(s[0]) {
      WordsVisible(s[1..]);
    } else {
      var w := LeadingWord(s);
      WordsVisible(s[|w|..]);
      assert s == w + s[|w|..];
      VisibleConcat(w, s[|w|..]);
      VisibleOfWord(w);
      assert ([w] + Words(s[|w|..]))[1..] == Words(s[|w|..]);
    }
  }

  lemma {:induction false} VisibleOfWord(w: string)
    requires forall i :: 0 <= i < |w| ==> !IsSpace(w[i])
    ensures Visible(w) == w
  {
    if w != [] {
      VisibleOfWord(w[1..]);
      assert w == [w[0]] + w[1..];
    }
  }

  lemma {:induction false} LeadingWordOf(w: string, rest: string)
    requires forall i :: 0 <= i < |w| ==> !IsSpace(w[i])
    requires rest == [] || IsSpace(rest[0])
    ensures LeadingWord(w + rest) == w
  {
    if w != [] {
      assert (w + rest)[1..] == w[1..] + rest;
      LeadingWordOf(w[1..], rest);
    }
  }

  /** A leading word ends at the first whitespace character. */
  lemma {:induction false} LeadingWordBefore(a: string, rest: string)
    requires rest != [] && IsSpace(rest[0])
    ensures LeadingWord(a + rest) == LeadingWord(a)
  {
    if a != [] {
      assert (a + rest)[0] == a[0];
      assert (a + rest)[1..] == a[1..] + rest;
      LeadingWordBefore(a[1..], rest);
    } else {
      assert a + rest == rest;
    }
  }

  /** `split()` cuts at every whitespace character: the words around one are the words of
      each side, so no word spans whitespace and every run of visible characters is whole. */
  lemma {:induction false} WordsAtSpace(a: string, c: char, b: string)
    requires IsSpace(c)
    ensures Words(a + [c] + b) == Words(a) + Words(b)
    decreases |a|
  {
    var s := a + [c] + b;
    if a == [] {
      assert s == [c] + b && s[1..] == b;
    } else if IsSpace(a[0]) {
      assert s[0] == a[0] && s[1..] == a[1..] + [c] + b;
      WordsAtSpace(a[1..], c, b);
    } else {
      var w := LeadingWord(a);
      WordsAtSpace(a[|w|..], c, b);
      WordsAfterWord(a, c, b);
    }
  }

  /** The first word of `a + [c] + b` is the first word of `a`, and the rest follows it. */
  lemma WordsAfterWord(a: string, c: char, b: string)
    requires IsSpace(c) && a != [] && !IsSpace(a[0])
    requires Words(a[|LeadingWord(a)|..] + [c] + b) == Words(a[|LeadingWord(a)|..]) + Words(b)
    ensures Words(a + [c] + b) == Words(a) + Words(b)
  {
    var w := LeadingWord(a);
    AroundSpace(a, c, b, |w|);
    LeadingWordBefore(a, [c] + b);
  }

  lemma AroundSpace(a: string, c: char, b: string, n: nat)
    requires n <= |a|
    ensures a + [c] + b == a + ([c] + b)
    ensures (a + [c] + b)[n..] == a[n..] + [c] + b
    ensures a != [] ==> (a + [c] + b)[0] == a[0]
  {
  }

  /** A string made of one word splits into that word alone. */
  lemma {:induction false} WordsOfWord(w: string)
    requires IsWord(w)
    ensures Words(w) == [w]
  {
    LeadingWordOf(w, []);
    assert w + [] == w;
    assert w[|w|..] == [];
  }

  /** An all-whitespace string has no word. */
  lemma {:induction false} WordsOfBlank(s: string)
    requires forall i :: 0 <= i < |s| ==> IsSpace(s[i])
    ensures Words(s) == []
  {
    if s != [] {
      WordsOfBlank(s[1..]);
    }
  }

  /** A non-empty run of whitespace separates words like a single whitespace character. */
  lemma {:induction false} WordsAtGap(a: string, g: string, b: string)
    requires g != [] && forall i :: 0 <= i < |g| ==> IsSpace(g[i])
    ensures Words(a + g + b) == Words(a) + Words(b)
    decreases |g|
  {
    assert a + g + b == a + [g[0]] + (g[1..] + b);
    WordsAtSpace(a, g[0], g[1..] + b);
    if |g| > 1 {
      assert [] + g[1..] + b == g[1..] + b;
      WordsAtGap([], g[1..], b);
    } else {
      assert g[1..] + b == b;
    }
  }

  /** The words of several strings, one string after the other. */
  function WordsAll(parts: seq<string>): seq<string> {
    if parts == [] then [] else Words(parts[0]) + WordsAll(parts[1..])
  }

  lemma {:induction false} WordsAllConcat(a: seq<string>, b: seq<string>)
    ensures WordsAll(a + b) == WordsAll(a) + WordsAll(b)
  {
    if a == [] {
      assert a + b == b;
    } else {
      assert (a + b)[1..] == a[1..] + b;
      WordsAllConcat(a[1..], b);
    }
  }

  /** Joining with a whitespace separator neither merges nor splits words. */
  lemma {:induction false} WordsOfJoinAt(sep: string, parts: seq<string>)
    requires sep != [] && forall i :: 0 <= i < |sep| ==> IsSpace(sep[i])
    ensures Words(Join(sep, parts)) == WordsAll(parts)
  {
    if |parts| == 1 {
      assert parts[1..] == [];
    } else if |parts| > 1 {
      WordsOfJoinAt(sep, parts[1..]);
      WordsAtGap(parts[0], sep, Join(sep, parts[1..]));
    }
  }

  /** Whitespace around a string adds no word. */
  lemma WordsAround(p: string, r: string, q: string)
    requires forall i :: 0 <= i < |p| ==> IsSpace(p[i])
    requires forall i :: 0 <= i < |q| ==> IsSpace(q[i])
    ensures Words(p + r + q) == Words(r)
  {
    if p != [] {
      assert p + r + q == [] + p + (r + q);
      WordsAtGap([], p, r + q);
    } else {
      assert p + r + q == r + q;
    }
    if q != [] {
      assert r + q == r + q + [];
      WordsAtGap(r, q, []);
    } else {
      assert r + q == r;
    }
  }

  /** Splitting at a whitespace separator neither merges nor splits words. */
  lemma SplitWords(s: string, sep: string)
    requires sep != [] && forall i :: 0 <= i < |sep| ==> IsSpace(sep[i])
    ensures WordsAll(Split(s, sep)) == Words(s)
  {
    JoinSplit(s, sep);
    WordsOfJoinAt(sep, Split(s, sep));
  }

  /** Stripping keeps the words. */
  lemma StripWords(s: string)
    ensures Words(Strip(s)) == Words(s)
  {
    var a, r := StripStart(s), Strip(s);
    StripShape(s);
    var p, q := s[..a], s[a + |r|..];
    assert s == p + r + q;
    WordsAround(p, r, q);
  }

  /** `splitlines()` of a non-empty string: the first line, then nothing, or a line boundary
      ending at `k` and the lines of what follows it. */
  lemma {:induction false} SplitLinesHead(s: string) returns (k: nat)
    requires s != []
    ensures var r := SplitLines(s);
      && r != [] && |r[0]| <= k <= |s| && s[..|r[0]|] == r[0]
      && (forall i :: |r[0]| <= i < k ==> IsSpace(s[i]))
      && (k == |r[0]| ==> k == |s| && |r| == 1)
      && (k > |r[0]| ==> r[1..] == SplitLines(s[k..]))
    decreases |s|
  {
    var r := SplitLines(s);
    if IsLineBreak(s[0]) {
      k := if s[0] == '\r' && |s| > 1 && s[1] == '\n' then 2 else 1;
      assert r[1..] == SplitLines(s[k..]);
    } else {
      var t := SplitLines(s[1..]);
      if t == [] {
        k := 1;
        assert s[1..] == [] && r == [[s[0]]];
      } else {
        var j := SplitLinesHead(s[1..]);
        k := j + 1;
        assert r[0] == [s[0]] + t[0] && r[1..] == t[1..];
        assert s[..|r[0]|] == [s[0]] + s[1..][..|t[0]|];
        assert forall i :: |r[0]| <= i < k ==> s[i] == s[1..][i - 1];
        assert s[k..] == s[1..][j..];
      }
    }
  }

  /** Splitting into lines drops only line boundaries, which are whitespace. */
  lemma {:induction false} SplitLinesVisible(s: string)
    ensures VisibleAll(SplitLines(s)) == Visible(s)
    decreases |s|
  {
    if s != [] {
      var k := SplitLinesHead(s);
      var r := SplitLines(s);
      if k == |r[0]| {
        assert r[0] == s && r == [r[0]];
      } else {
        SplitLinesVisible(s[k..]);
        VisibleAcrossGap(s, |r[0]|, k);
        assert r == [r[0]] + r[1..];
      }
    }
  }

  /** A run of whitespace inside `s` holds no visible character. */
  lemma VisibleAcrossGap(s: string, n: nat, k: nat)
    requires n <= k <= |s| && forall i :: n <= i < k ==> IsSpace(s[i])
    ensures Visible(s) == Visible(s[..n]) + Visible(s[k..])
  {
    var gap, tail := s[n..k], s[k..];
    ThreeParts(s, n, k);
    forall i | 0 <= i < |gap| ensures IsSpace(gap[i]) {
      assert gap[i] == s[n + i];
    }
    VisibleEmpty(gap);
    VisibleConcat(gap, tail);
    VisibleConcat(s[..n], gap + tail);
  }

  lemma ThreeParts(s: string, n: nat, k: nat)
    requires n <= k <= |s|
    ensures s == s[..n] + (s[n..k] + s[k..]) && s == s[..n] + s[n..k] + s[k..]
  {
  }

  /** Splitting into lines neither merges nor splits words. */
  lemma {:induction false} SplitLinesWords(s: string)
    ensures WordsAll(SplitLines(s)) == Words(s)
    decreases |s|
  {
    if s != [] {
      var k := SplitLinesHead(s);
      var r := SplitLines(s);
      if k == |r[0]| {
        assert r[0] == s && r == [r[0]];
      } else {
        SplitLinesWords(s[k..]);
        WordsAcrossGap(s, |r[0]|, k);
        assert r == [r[0]] + r[1..];
      }
    }
  }

  /** A non-empty run of whitespace inside `s` separates the words before it from those after it. */
  lemma WordsAcrossGap(s: string, n: nat, k: nat)
    requires n < k <= |s| && forall i :: n <= i < k ==> IsSpace(s[i])
    ensures Words(s) == Words(s[..n]) + Words(s[k..])
  {
    var gap := s[n..k];
    ThreeParts(s, n, k);
    forall i | 0 <= i < |gap| ensures IsSpace(gap[i]) {
      assert gap[i] == s[n + i];
    }
    WordsAtGap(s[..n], gap, s[k..]);
  }

  /** Splitting words joined by single spaces gives the words back. */
  lemma {:induction false} WordsOfJoin(ws: seq<string>)
    requires forall k :: 0 <= k < |ws| ==> IsWord(ws[k])
    ensures Words(Join(" ", ws)) == ws
  {
    if |ws| == 1 {
      LeadingWordOf(ws[0], []);
      assert ws[0] + [] == ws[0];
      assert ws[0][|ws[0]|..] == [];
    } else if |ws| > 1 {
      var rest := Join(" ", ws[1..]);
      var s := ws[0] + " " + rest;
      assert s == ws[0] + (" " + rest);
      LeadingWordOf(ws[0], " " + rest);
      assert s[|ws[0]|..] == " " + rest;
      assert (" " + rest)[1..] == rest;
      WordsOfJoin(ws[1..]);
      assert ws == [ws[0]] + ws[1..];
    }
  }
}
