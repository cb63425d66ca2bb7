/**
 * The subject categories of a listing entry: the parenthesised codes of its subjects
 * line, as the regular expression `\(([^)]+)\)` finds them.
 */
module Subjects {
  import opened Options
  import opened Text

  /** An occurrence in a suffix is an occurrence in the whole string. */
  lemma ContainsInSuffix(s: string, k: nat, pat: string)
    requires k <= |s| && Contains(s[k..], pat)
    ensures Contains(s, pat)
  {
    ContainsWithin(s[..k], s[k..], "", pat);
    assert s[..k] + s[k..] + "" == s;
  }

  /** What the match at the front of `s` captures: the text up to the first `)`, when `s`
      starts with `(` and that text is not empty. */
  lemma GroupAtFront(s: string, j: nat)
    requires |s| > 0 && s[0] == '(' && FindFirst(s[1..], ")") == Some(j) && j > 0
    ensures ')' !in s[1..1 + j]
    ensures Contains(s, "(" + s[1..1 + j] + ")")
  {
    var g := s[1..1 + j];
    forall i | 0 <= i < |g| ensures g[i] != ')' {
      assert g[i] == s[1..][i];
      OccursAtChar(s[1..], ')', i);
    }
    OccursAtChar(s[1..], ')', j);
    assert s[..j + 2] == "(" + s[1..1 + j] + ")";
    assert OccursAt(s, "(" + s[1..1 + j] + ")", 0);
  }

  /** `re.findall(r'\(([^)]+)\)', s)`: scanning left to right, an opening parenthesis
      followed by at least one character before the next closing one yields that text,
      and the scan resumes after the closing parenthesis; otherwise the scan moves on by
      one character. */
  function Groups(s: string): (r: seq<string>)
    ensures forall k :: 0 <= k < |r| ==> |r[k]| > 0 && ')' !in r[k]
    ensures forall k :: 0 <= k < |r| ==> Contains(s, "(" + r[k] + ")")
    decreases |s|
  {
    if |s| == 0 then []
    else if s[0] != '(' then
      var rest := Groups(s[1..]);
      assert forall k :: 0 <= k < |rest| ==> Contains(s, "(" + rest[k] + ")") by {
        forall k | 0 <= k < |rest| ensures Contains(s, "(" + rest[k] + ")") {
          ContainsInSuffix(s, 1, "(" + rest[k] + ")");
        }
      }
      rest
    else
      match FindFirst(s[1..], ")")
      case Some(j) =>
        if j > 0 then
          var rest := Groups(s[2 + j..]);
          GroupAtFront(s, j);
          assert forall k :: 0 <= k < |rest| ==> Contains(s, "(" + rest[k] + ")") by {
            forall k | 0 <= k < |rest| ensures Contains(s, "(" + rest[k] + ")") {
              ContainsInSuffix(s, 2 + j, "(" + rest[k] + ")");
            }
          }
          [s[1..1 + j]] + rest
        else
          var rest := Groups(s[1..]);
          assert forall k :: 0 <= k < |rest| ==> Contains(s, "(" + rest[k] + ")") by {
            forall k | 0 <= k < |rest| ensures Contains(s, "(" + rest[k] + ")") {
              ContainsInSuffix(s, 1, "(" + rest[k] + ")");
            }
          }
          rest
      case None =>
        var rest := Groups(s[1..]);
        assert forall k :: 0 <= k < |rest| ==> Contains(s, "(" + rest[k] + ")") by {
          forall k | 0 <= k < |rest| ensures Contains(s, "(" + rest[k] + ")") {
            ContainsInSuffix(s, 1, "(" + rest[k] + ")");
          }
        }
        rest
  }

  /** Text without an opening parenthesis contributes no group. */
  lemma {:induction false} GroupsSkipPlain(a: string, t: string)
    requires '(' !in a
    ensures Groups(a + t) == Groups(t)
    decreases |a|
  {
    if |a| > 0 {
      assert (a + t)[0] == a[0] != '(';
      assert (a + t)[1..] == a[1..] + t;
      assert '(' !in a[1..];
      assert Groups(a + t) == Groups((a + t)[1..]);
      GroupsSkipPlain(a[1..], t);
    } else {
      assert a + t == t;
    }
  }

  /** A parenthesised code is captured, and the scan continues after it. */
  lemma GroupsTakeCode(code: string, rest: string)
    requires |code| > 0 && ')' !in code
    ensures Groups("(" + code + ")" + rest) == [code] + Groups(rest)
  {
    var s := "(" + code + ")" + rest;
    var found := FindFirst(s[1..], ")");
    forall i | 0 <= i < |code| ensures !OccursAt(s[1..], ")", i) {
      OccursAtChar(s[1..], ')', i);
      assert s[1..][i] == code[i];
    }
    OccursAtChar(s[1..], ')', |code|);
    assert found == Some(|code|);
    assert s[1..1 + |code|] == code;
    assert s[2 + |code|..] == rest;
  }

  /** The distinct categories of an entry: `list(set(findall(...)))` on a non-empty subjects
      text, and no category otherwise. */
  function CategorySet(subjects: Option<string>): (r: set<string>)
    ensures !Truthy(subjects) ==> r == {}
    ensures forall c :: c in r ==> |c| > 0 && ')' !in c
    ensures forall c :: c in r ==> Contains(subjects.value, "(" + c + ")")
  {
    if Truthy(subjects) then set g | g in Groups(subjects.value) else {}
  }
}
