/**
 * The string operations of Python's `str` that the spider uses, on ASCII text: `lower`,
 * `strip`, `in`, `split`, `split(...)[-1]`, `replace` and `int` of a digit string. `in` is
 * defined through a leftmost search in the manner of `find`, and `replace` through `join`.
 */
module Text {
  import opened Options

  /** Every character is ASCII; on such text the definitions below coincide with Python's. */
  predicate IsAscii(s: string) {
    forall i :: 0 <= i < |s| ==> s[i] as int < 128
  }

  lemma AsciiConcat(a: string, b: string)
    requires IsAscii(a) && IsAscii(b)
    ensures IsAscii(a + b)
  {
    forall i | 0 <= i < |a + b| ensures (a + b)[i] as int < 128 {
      if i >= |a| {
        assert (a + b)[i] == b[i - |a|];
      }
    }
  }

  /** Python's `str.isspace` on ASCII: tab, line feed, vertical tab, form feed, carriage return,
      the four separators 0x1C-0x1F, and space. */
  predicate IsSpace(c: char) {
    9 <= c as int <= 13 || 28 <= c as int <= 32
  }

  function LowerChar(c: char): (r: char)
    ensures !('A' <= r <= 'Z')
    ensures ('A' <= c <= 'Z') || r == c
  {
    if 'A' <= c <= 'Z' then (c as int + 32) as char else c
  }

  /** `str.lower` on ASCII text. */
  function Lower(s: string): (r: string)
    ensures |r| == |s|
  {
    seq(|s|, i requires 0 <= i < |s| => LowerChar(s[i]))
  }

  lemma LowerSlice(s: string, i: int, j: int)
    requires 0 <= i <= j <= |s|
    ensures Lower(s[i..j]) == Lower(s)[i..j]
  {
  }

  /** Drops leading whitespace. */
  function TrimStart(s: string): (r: string)
    ensures |r| <= |s| && r == s[|s| - |r|..]
    ensures forall i :: 0 <= i < |s| - |r| ==> IsSpace(s[i])
    ensures r == [] || !IsSpace(r[0])
    decreases |s|
  {
    if |s| > 0 && IsSpace(s[0]) then TrimStart(s[1..]) else s
  }

  /** Drops trailing whitespace. */
  function TrimEnd(s: string): (r: string)
    ensures |r| <= |s| && r == s[..|r|]
    ensures forall i :: |r| <= i < |s| ==> IsSpace(s[i])
    ensures r == [] || !IsSpace(r[|r| - 1])
    decreases |s|
  {
    if |s| > 0 && IsSpace(s[|s| - 1]) then TrimEnd(s[..|s| - 1]) else s
  }

  /** `str.strip()` with no argument. */
  function Strip(s: string): (r: string)
    ensures |r| <= |s|
    ensures r == [] || (!IsSpace(r[0]) && !IsSpace(r[|r| - 1]))
  {
    TrimEnd(TrimStart(s))
  }

  /** Stripping adds no character. */
  lemma StripKeepsOut(s: string, c: char)
    requires c !in s
    ensures c !in Strip(s)
  {
    var t := TrimStart(s);
    assert c !in t by {
      forall i | 0 <= i < |t| ensures t[i] != c {
        assert t[i] == s[|s| - |t| + i];
      }
    }
    var r := TrimEnd(t);
    forall i | 0 <= i < |r| ensures r[i] != c {
      assert r[i] == t[i];
    }
  }

  /** `pat` occurs in `s` starting at index `i`. */
  predicate OccursAt(s: string, pat: string, i: int) {
    0 <= i && i + |pat| <= |s| && s[i..i + |pat|] == pat
  }

  /** The leftmost index from `from` on at which `pat` occurs, if any. */
  function FindFrom(s: string, pat: string, from: nat): (r: Option<nat>)
    ensures r.Some? ==> from <= r.value && OccursAt(s, pat, r.value)
    ensures r.Some? ==> forall j :: from <= j < r.value ==> !OccursAt(s, pat, j)
    ensures r.None? ==> forall j :: from <= j ==> !OccursAt(s, pat, j)
    decreases |s| - from
  {
    if |s| < from + |pat| then None
    else if s[from..from + |pat|] == pat then Some(from)
    else FindFrom(s, pat, from + 1)
  }

  /** `str.find`: the leftmost index at which `pat` occurs, if any. */
  function FindFirst(s: string, pat: string): (r: Option<nat>)
    ensures r.Some? ==> OccursAt(s, pat, r.value)
    ensures r.Some? ==> forall j :: 0 <= j < r.value ==> !OccursAt(s, pat, j)
    ensures r.None? ==> forall j :: !OccursAt(s, pat, j)
  {
    FindFrom(s, pat, 0)
  }

  /** Python's `pat in s`. */
  predicate Contains(s: string, pat: string)
  {
    FindFirst(s, pat).Some?
  }

  lemma ContainsIff(s: string, pat: string)
    ensures Contains(s, pat) <==> exists i :: OccursAt(s, pat, i)
  {
  }

  /** An occurrence inside `t` is an occurrence inside any string that embeds `t`. */
  lemma ContainsWithin(a: string, t: string, b: string, pat: string)
    requires Contains(t, pat)
    ensures Contains(a + t + b, pat)
  {
    var i := FindFirst(t, pat).value;
    assert (a + t + b)[|a| + i..|a| + i + |pat|] == t[i..i + |pat|];
    assert OccursAt(a + t + b, pat, |a| + i);
  }

  /** Text that neither starts nor ends with whitespace is already stripped. */
  lemma StripStripped(s: string)
    requires s == [] || (!IsSpace(s[0]) && !IsSpace(s[|s| - 1]))
    ensures Strip(s) == s
  {
  }

  /** Leading whitespace is dropped. */
  lemma StripLeadingSpace(c: char, s: string)
    requires IsSpace(c)
    ensures Strip([c] + s) == Strip(s)
  {
    assert ([c] + s)[1..] == s;
  }

  /** Stripping keeps any inner stretch that neither starts nor ends with whitespace. */
  lemma StripKeepsInner(pre: string, m: string, post: string)
    requires |m| > 0 && !IsSpace(m[0]) && !IsSpace(m[|m| - 1])
    ensures Contains(Strip(pre + m + post), m)
  {
    var s := pre + m + post;
    assert OccursAt(s, m, |pre|);
    var t := TrimStart(s);
    var at := TrimStartKeeps(s, m, |pre|);
    TrimEndKeeps(t, m, at);
  }

  lemma TrimStartKeeps(s: string, m: string, i: nat) returns (j: nat)
    requires |m| > 0 && !IsSpace(m[0]) && OccursAt(s, m, i)
    ensures OccursAt(TrimStart(s), m, j)
  {
    var t := TrimStart(s);
    var cut := |s| - |t|;
    assert s[i] == m[0];
    j := i - cut;
    assert t[j..j + |m|] == s[i..i + |m|];
  }

  lemma TrimEndKeeps(t: string, m: string, j: nat)
    requires |m| > 0 && !IsSpace(m[|m| - 1]) && OccursAt(t, m, j)
    ensures Contains(TrimEnd(t), m)
  {
    var r := TrimEnd(t);
    assert t[j + |m| - 1] == m[|m| - 1];
    assert r[j..j + |m|] == t[j..j + |m|];
    assert OccursAt(r, m, j);
  }

  lemma OccursAtChar(s: string, c: char, j: int)
    ensures OccursAt(s, [c], j) <==> 0 <= j < |s| && s[j] == c
  {
    if 0 <= j < |s| {
      assert s[j..j + 1] == [s[j]];
    }
  }

  /** Nothing before the leftmost occurrence holds the pattern. */
  lemma {:induction false} BeforeFirst(s: string, sep: string, i: nat)
    requires |sep| > 0 && FindFirst(s, sep) == Some(i)
    ensures !Contains(s[..i], sep)
  {
    var f := FindFirst(s[..i], sep);
    if f.Some? {
      OccursInPrefix(s, i, sep, f.value);
      assert false;
    }
  }

  /** An occurrence inside a prefix is an occurrence in the whole string. */
  lemma OccursInPrefix(s: string, i: nat, pat: string, j: nat)
    requires i <= |s| && OccursAt(s[..i], pat, j)
    ensures OccursAt(s, pat, j)
  {
    assert s[..i][j..j + |pat|] == s[j..j + |pat|];
  }

  /** `str.split(sep)`: the pieces between the leftmost non-overlapping occurrences of `sep`. */
  function Split(s: string, sep: string): (r: seq<string>)
    requires |sep| > 0
    ensures |r| >= 1
    decreases |s|
  {
    match FindFirst(s, sep)
    case None => [s]
    case Some(i) => [s[..i]] + Split(s[i + |sep|..], sep)
  }

  /** No piece of a split holds the separator. */
  lemma {:induction false} SplitPiecesFree(s: string, sep: string)
    requires |sep| > 0
    ensures forall k :: 0 <= k < |Split(s, sep)| ==> !Contains(Split(s, sep)[k], sep)
    decreases |s|
  {
    match FindFirst(s, sep)
    case None =>
    case Some(i) =>
      var rest := s[i + |sep|..];
      SplitPiecesFree(rest, sep);
      BeforeFirst(s, sep, i);
      SplitUnfold(s, sep, i);
  }

  /** A join ends with its last piece. */
  lemma JoinEndsWithLast(pieces: seq<string>, sep: string)
    requires |pieces| >= 1
    ensures var j := Join(pieces, sep); var last := pieces[|pieces| - 1];
      |last| <= |j| && last == j[|j| - |last|..]
  {
    var last := pieces[|pieces| - 1];
    if |pieces| > 1 {
      var init := pieces[..|pieces| - 1];
      assert pieces == init + [last];
      JoinSnoc(init, last, sep);
    }
  }

  lemma NoCharUnlessContained(s: string, c: char)
    requires !Contains(s, [c])
    ensures c !in s
  {
    forall j | 0 <= j < |s| ensures s[j] != c {
      OccursAtChar(s, c, j);
    }
  }

  /** A string without the separator splits into itself alone. */
  lemma SplitWhole(s: string, sep: string)
    requires |sep| > 0
    ensures !Contains(s, sep) ==> Split(s, sep) == [s]
  {
  }

  /** `sep.join(pieces)`. */
  function Join(pieces: seq<string>, sep: string): (r: string)
    requires |pieces| >= 1
    decreases |pieces|
  {
    if |pieces| == 1 then pieces[0] else pieces[0] + sep + Join(pieces[1..], sep)
  }

  lemma {:induction false} JoinSnoc(pieces: seq<string>, x: string, sep: string)
    requires |pieces| >= 1
    ensures Join(pieces + [x], sep) == Join(pieces, sep) + sep + x
    decreases |pieces|
  {
    if |pieces| > 1 {
      assert (pieces + [x])[1..] == pieces[1..] + [x];
      JoinSnoc(pieces[1..], x, sep);
    }
  }

  lemma {:induction false} SplitUnfold(s: string, sep: string, i: nat)
    requires |sep| > 0 && FindFirst(s, sep) == Some(i)
    ensures Split(s, sep) == [s[..i]] + Split(s[i + |sep|..], sep)
  {
  }

  lemma JoinCons(x: string, pieces: seq<string>, sep: string)
    requires |pieces| >= 1
    ensures Join([x] + pieces, sep) == x + sep + Join(pieces, sep)
  {
    assert ([x] + pieces)[1..] == pieces;
  }

  /** Joining the pieces of a split with the same separator gives the string back. */
  lemma {:induction false} SplitJoin(s: string, sep: string)
    requires |sep| > 0
    ensures Join(Split(s, sep), sep) == s
    decreases |s|
  {
    var f := FindFirst(s, sep);
    if f.Some? {
      var i := f.value;
      var rest := s[i + |sep|..];
      SplitJoin(rest, sep);
      var r := Split(rest, sep);
      SplitUnfold(s, sep, i);
      JoinCons(s[..i], r, sep);
      assert OccursAt(s, sep, i);
      AroundOccurrence(s, sep, i);
    }
  }

  /** A string is the text before an occurrence, the occurrence, and the text after it. */
  lemma AroundOccurrence(s: string, pat: string, i: nat)
    requires OccursAt(s, pat, i)
    ensures s == s[..i] + pat + s[i + |pat|..]
  {
    assert s[..i] + s[i..i + |pat|] == s[..i + |pat|];
  }

  /** A pattern with a character the text lacks does not occur in it. */
  lemma AbsentChar(s: string, pat: string, j: nat)
    requires j < |pat| && pat[j] !in s
    ensures !Contains(s, pat)
  {
    forall i ensures !OccursAt(s, pat, i) {
      if 0 <= i && i + |pat| <= |s| {
        assert s[i..i + |pat|][j] == s[i + j] && s[i + j] in s;
      }
    }
  }

  /** A lower-case letter is missing from the lowered text when neither case of it is there. */
  lemma LetterNotInLower(s: string, c: char)
    requires 'a' <= c <= 'z' && c !in s && (c as int - 32) as char !in s
    ensures c !in Lower(s)
  {
    forall i | 0 <= i < |s| ensures Lower(s)[i] != c {
      assert s[i] != c && s[i] != (c as int - 32) as char;
    }
  }

  /** Splitting at a one-character separator undoes a join of pieces free of it. */
  lemma {:induction false} JoinSplit(pieces: seq<string>, c: char)
    requires |pieces| >= 1
    requires forall k :: 0 <= k < |pieces| ==> c !in pieces[k]
    ensures Split(Join(pieces, [c]), [c]) == pieces
    decreases |pieces|
  {
    var s := Join(pieces, [c]);
    if |pieces| == 1 {
      forall j ensures !OccursAt(s, [c], j) {
        OccursAtChar(s, c, j);
      }
      assert FindFirst(s, [c]).None?;
    } else {
      var p := pieces[0];
      var tail := Join(pieces[1..], [c]);
      assert s == p + [c] + tail;
      OccursAtChar(s, c, |p|);
      var v := FindFirst(s, [c]).value;
      forall j | 0 <= j < |p| ensures !OccursAt(s, [c], j) {
        OccursAtChar(s, c, j);
        assert s[j] == p[j];
      }
      assert v == |p|;
      assert s[..v] == p;
      assert s[v + 1..] == tail;
      JoinSplit(pieces[1..], c);
    }
  }

  /** `s.split(sep)[-1]`: the text after the last separator, or all of `s` when there is none. */
  function AfterLast(s: string, sep: string): (r: string)
    requires |sep| > 0
    ensures !Contains(r, sep)
    ensures |r| <= |s| && r == s[|s| - |r|..]
  {
    var pieces := Split(s, sep);
    SplitJoin(s, sep);
    JoinEndsWithLast(pieces, sep);
    SplitPiecesFree(s, sep);
    pieces[|pieces| - 1]
  }

  /** Without a separator, `split()[-1]` is the whole string. */
  lemma AfterLastAbsent(s: string, sep: string)
    requires |sep| > 0 && !Contains(s, sep)
    ensures AfterLast(s, sep) == s
  {
    SplitWhole(s, sep);
  }

  /** The position of the last `c` in `s`. */
  function LastIndexOf(s: string, c: char): (k: nat)
    requires c in s
    ensures k < |s| && s[k] == c && c !in s[k + 1..]
  {
    if s[|s| - 1] == c then |s| - 1
    else
      assert c in s[..|s| - 1] by {
        var j :| 0 <= j < |s| && s[j] == c;
        assert s[..|s| - 1][j] == c;
      }
      var k := LastIndexOf(s[..|s| - 1], c);
      assert s[k + 1..] == s[..|s| - 1][k + 1..] + [s[|s| - 1]];
      k
  }

  /** With a one-character separator, `split(c)[-1]` is all of `s` when `c` does not occur,
      and otherwise is what follows the last `c`. */
  lemma AfterLastCharShape(s: string, c: char)
    ensures c !in s ==> AfterLast(s, [c]) == s
    ensures c in s ==> var r := AfterLast(s, [c]); |r| < |s| && s[|s| - |r| - 1] == c
  {
    if c in s {
      var k := LastIndexOf(s, c);
      assert s == s[..k] + [c] + s[k + 1..];
      AfterLastChar(s[..k], c, s[k + 1..]);
    } else {
      AbsentChar(s, [c], 0);
      AfterLastAbsent(s, [c]);
    }
  }

  /** The text after the last `sep` of `prefix + sep + tail` is `tail` when no occurrence of `sep`
      starts inside `prefix` and `tail` holds none. */
  lemma AfterLastPastFirst(prefix: string, sep: string, tail: string)
    requires |sep| > 0 && !Contains(prefix + sep[..|sep| - 1], sep) && !Contains(tail, sep)
    ensures AfterLast(prefix + sep + tail, sep) == tail
  {
    var s := prefix + sep + tail;
    var t := prefix + sep[..|sep| - 1];
    var p := |prefix|;
    assert s[p..p + |sep|] == sep;
    forall j | 0 <= j < p ensures !OccursAt(s, sep, j) {
      if OccursAt(s, sep, j) {
        assert s[j..j + |sep|] == t[j..j + |sep|];
        assert OccursAt(t, sep, j);
        assert false;
      }
    }
    assert OccursAt(s, sep, p);
    var f := FindFirst(s, sep);
    assert f.Some?;
    assert !(f.value < p) && !(p < f.value);
    SplitUnfold(s, sep, p);
    assert s[p + |sep|..] == tail;
    SplitWhole(tail, sep);
  }

  /** The text after the last `c` of `prefix + [c] + tail` is `tail` when `tail` holds no `c`. */
  lemma AfterLastChar(prefix: string, c: char, tail: string)
    requires c !in tail
    ensures AfterLast(prefix + [c] + tail, [c]) == tail
  {
    var pieces := Split(prefix, [c]);
    SplitJoin(prefix, [c]);
    SplitPiecesFree(prefix, [c]);
    JoinSnoc(pieces, tail, [c]);
    forall k | 0 <= k < |pieces + [tail]| ensures c !in (pieces + [tail])[k] {
      if k < |pieces| {
        NoCharUnlessContained(pieces[k], c);
      }
    }
    JoinSplit(pieces + [tail], c);
  }

  /** The text after the last `sep` of `sep + tail` is `tail` when `tail` holds no `sep`. */
  lemma AfterLastLeading(sep: string, tail: string)
    requires |sep| > 0 && !Contains(tail, sep)
    ensures AfterLast(sep + tail, sep) == tail
  {
    var s := sep + tail;
    assert s[..|sep|] == sep && s[|sep|..] == tail;
    assert OccursAt(s, sep, 0);
    assert FindFirst(s, sep) == Some(0);
    SplitUnfold(s, sep, 0);
  }

  /** `s.replace(pat, repl)`: Python replaces every non-overlapping occurrence, left to right,
      which is exactly `repl.join(s.split(pat))`. */
  function Replace(s: string, pat: string, repl: string): (r: string)
    requires |pat| > 0
    // a string without the pattern is left as it is
    ensures !Contains(s, pat) ==> r == s
  {
    SplitWhole(s, pat);
    Join(Split(s, pat), repl)
  }

  /** Deleting a pattern also deletes it at the front, and then carries on through the rest. */
  lemma ReplaceLeading(s: string, pat: string)
    requires |pat| > 0
    ensures Replace(pat + s, pat, "") == Replace(s, pat, "")
  {
    assert (pat + s)[..|pat|] == pat;
    assert (pat + s)[|pat|..] == s;
    assert FindFirst(pat + s, pat) == Some(0);
    var rest := Split(s, pat);
    assert Split(pat + s, pat) == [""] + rest;
  }

  /** A non-empty string of ASCII decimal digits, which is what `int()` is given here. */
  predicate IsDigits(s: string) {
    |s| > 0 && forall i :: 0 <= i < |s| ==> '0' <= s[i] <= '9'
  }

  /** `int(s)` on a digit string (leading zeros allowed). */
  function ParseDigits(s: string): (n: nat)
    requires IsDigits(s)
    decreases |s|
  {
    var d := s[|s| - 1] as int - '0' as int;
    if |s| == 1 then d else 10 * ParseDigits(s[..|s| - 1]) + d
  }

  /** The canonical decimal spelling of `n`, the reference for `ParseDigits`. */
  function Decimal(n: nat): (s: string)
    ensures IsDigits(s)
    decreases n
  {
    var d := ('0' as int + n % 10) as char;
    if n < 10 then [d] else Decimal(n / 10) + [d]
  }

  /** `int` reads back the decimal spelling of every natural number. */
  lemma {:induction false} ParseDecimal(n: nat)
    ensures ParseDigits(Decimal(n)) == n
    decreases n
  {
    if n >= 10 {
      var t := Decimal(n / 10);
      assert (t + [('0' as int + n % 10) as char])[..|t|] == t;
      ParseDecimal(n / 10);
    }
  }
}
