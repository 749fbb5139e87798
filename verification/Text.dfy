/** The string operations the repository rewrites paths and templates with:
    strings.Contains, strings.Index and strings.Replace (n = 1 and n = -1). */
module Text {

  /** \w */
  predicate IsWordChar(c: char) {
    'a' <= c <= 'z' || 'A' <= c <= 'Z' || '0' <= c <= '9' || c == '_'
  }

  /** The word characters, one by one. */
  lemma WordCharsAre(c: char)
    ensures IsWordChar(c) <==>
            || c in "abcdefghijklm" || c in "nopqrstuvwxyz"
            || c in "ABCDEFGHIJKLM" || c in "NOPQRSTUVWXYZ" || c in "0123456789_"
  {
    LowerCaseIs(c);
    UpperCaseIs(c);
    DigitIs(c);
  }

  lemma LowerCaseIs(c: char)
    ensures 'a' <= c <= 'z' <==> c in "abcdefghijklm" || c in "nopqrstuvwxyz"
  {
    if 'a' <= c <= 'm' {
      assert "abcdefghijklm"[c as int - 'a' as int] == c;
    } else if 'n' <= c <= 'z' {
      assert "nopqrstuvwxyz"[c as int - 'n' as int] == c;
    }
  }

  lemma UpperCaseIs(c: char)
    ensures 'A' <= c <= 'Z' <==> c in "ABCDEFGHIJKLM" || c in "NOPQRSTUVWXYZ"
  {
    if 'A' <= c <= 'M' {
      assert "ABCDEFGHIJKLM"[c as int - 'A' as int] == c;
    } else if 'N' <= c <= 'Z' {
      assert "NOPQRSTUVWXYZ"[c as int - 'N' as int] == c;
    }
  }

  lemma DigitIs(c: char)
    ensures '0' <= c <= '9' <==> c in "0123456789"
  {
    if '0' <= c <= '9' {
      assert "0123456789"[c as int - '0' as int] == c;
    }
  }

  predicate OccursAt(s: string, w: string, i: int)
  {
    0 <= i <= |s| - |w| && s[i..i + |w|] == w
  }

  /** strings.Contains */
  predicate Occurs(s: string, w: string)
  {
    exists i | 0 <= i <= |s| :: OccursAt(s, w, i)
  }

  function IndexFrom(s: string, w: string, i: nat): (r: int)
    requires i <= |s|
    ensures r == -1 || (i <= r && OccursAt(s, w, r))
    ensures forall j :: i <= j < (if r == -1 then |s| + 1 else r) ==> !OccursAt(s, w, j)
    decreases |s| - i
  {
    if OccursAt(s, w, i) then i
    else if i == |s| then -1
    else IndexFrom(s, w, i + 1)
  }

  /** strings.Index: the first occurrence, or -1 */
  function Index(s: string, w: string): (r: int)
    ensures r == -1 <==> !Occurs(s, w)
    ensures r != -1 ==> OccursAt(s, w, r)
    ensures forall j :: 0 <= j < r ==> !OccursAt(s, w, j)
  {
    IndexFrom(s, w, 0)
  }

  /** strings.Replace(s, old, new, 1) */
  function ReplaceFirst(s: string, was: string, now: string): string
  {
    var i := Index(s, was);
    if i == -1 then s else s[..i] + now + s[i + |was|..]
  }

  /** strings.Replace(s, old, new, -1), that is strings.ReplaceAll */
  function ReplaceAll(s: string, was: string, now: string): string
    requires was != ""
  {
    var i := Index(s, was);
    if i == -1 then s else s[..i] + now + ReplaceAll(s[i + |was|..], was, now)
  }

  lemma FirstIndexIs(s: string, w: string, i: nat)
    requires OccursAt(s, w, i)
    requires forall j :: 0 <= j < i ==> !OccursAt(s, w, j)
    ensures Index(s, w) == i
  {
  }

  /** Nothing is erased exactly when there is nothing to erase. */
  lemma {:induction false} EraseAllIsIdentity(s: string, w: string)
    requires w != ""
    ensures ReplaceAll(s, w, "") == s <==> !Occurs(s, w)
    ensures |ReplaceAll(s, w, "")| < |s| <==> Occurs(s, w)
  {
    var i := Index(s, w);
    if i != -1 {
      EraseAllIsIdentity(s[i + |w|..], w);
      EraseShortens(s, w, i);
    }
  }

  lemma {:induction false} EraseShortens(s: string, w: string, i: nat)
    requires w != "" && Index(s, w) == i && i + |w| <= |s| && |ReplaceAll(s[i + |w|..], w, "")| <= |s[i + |w|..]|
    ensures |ReplaceAll(s, w, "")| < |s|
  {
  }

  /** Erasing a leading occurrence leaves the erasure of the rest. */
  lemma EraseLeading(w: string, rest: string)
    requires w != ""
    ensures ReplaceAll(w + rest, w, "") == ReplaceAll(rest, w, "")
  {
  }

  lemma EraseTwice(w: string, rest: string)
    requires w != "" && !Occurs(rest, w)
    ensures ReplaceAll(w + (w + rest), w, "") == rest
  {
    EraseLeading(w, w + rest);
    EraseLeading(w, rest);
    EraseAllIsIdentity(rest, w);
  }

  lemma OccursInContext(before: string, s: string, after: string, w: string)
    requires Occurs(s, w)
    ensures Occurs(before + s + after, w)
  {
    var i :| 0 <= i <= |s| && OccursAt(s, w, i);
    assert (before + s + after)[|before| + i..|before| + i + |w|] == s[i..i + |w|];
    assert OccursAt(before + s + after, w, |before| + i);
  }

  lemma OccursFirstChar(s: string, w: string)
    requires w != "" && Occurs(s, w)
    ensures w[0] in s
  {
  }

  lemma ReplaceLeading(was: string, rest: string, now: string)
    ensures ReplaceFirst(was + rest, was, now) == now + rest
  {
  }

  /** One character that differs is enough. */
  lemma NotHere(s: string, w: string, j: nat, k: nat)
    requires k < |w| && (j + k < |s| ==> s[j + k] != w[k])
    ensures !OccursAt(s, w, j)
  {
  }

  lemma MissingChar(s: string, w: string, k: nat)
    requires k < |w| && w[k] !in s
    ensures !Occurs(s, w)
  {
  }

  lemma {:induction false} ReplaceAllNone(s: string, was: string, now: string)
    requires was != "" && Index(s, was) == -1
    ensures ReplaceAll(s, was, now) == s
  {
  }
}
