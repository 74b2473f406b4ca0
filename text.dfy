/** Upper-casing and substring search, as the webhook uses them to match slot keys. */
module Text {

  /** Go's unicode.ToUpper restricted to ASCII: lower-case letters move up by 32. */
  function UpperChar(c: char): char
  {
    if 'a' <= c <= 'z' then (c as int - 32) as char else c
  }

  /** The lower-case partner of an upper-case ASCII letter. */
  function LowerChar(c: char): char
  {
    if 'A' <= c <= 'Z' then (c as int + 32) as char else c
  }

  /** strings.ToUpper, letter by letter. */
  function Upper(s: string): (u: string)
    ensures |u| == |s|
    ensures forall i :: 0 <= i < |s| ==> u[i] == UpperChar(s[i])
  {
    seq(|s|, i requires 0 <= i < |s| => UpperChar(s[i]))
  }

  /** t occurs in s starting at position i. */
  ghost predicate OccursAt(s: string, t: string, i: int)
  {
    0 <= i && i + |t| <= |s| && s[i..i + |t|] == t
  }

  lemma OccursAfterFirst(s: string, t: string, i: int)
    requires |s| > 0 && i >= 0
    ensures OccursAt(s[1..], t, i) <==> OccursAt(s, t, i + 1)
  {
    if 0 <= i && i + |t| <= |s| - 1 {
      assert s[1..][i..i + |t|] == s[i + 1..i + 1 + |t|];
    }
  }

  /** strings.Contains: true exactly when t occurs somewhere in s. */
  function Contains(s: string, t: string): (r: bool)
    ensures r <==> exists i :: OccursAt(s, t, i)
    decreases |s|
  {
    if |t| > |s| then false
    else if s[..|t|] == t then assert OccursAt(s, t, 0); true
    else
      assert !OccursAt(s, t, 0);
      assert forall i :: OccursAt(s[1..], t, i) ==> OccursAt(s, t, i + 1) by {
        forall i | OccursAt(s[1..], t, i) ensures OccursAt(s, t, i + 1) {
          OccursAfterFirst(s, t, i);
        }
      }
      assert forall i :: OccursAt(s, t, i) ==> i >= 1 && OccursAt(s[1..], t, i - 1) by {
        forall i | OccursAt(s, t, i) ensures i >= 1 && OccursAt(s[1..], t, i - 1) {
          OccursAfterFirst(s, t, i - 1);
        }
      }
      Contains(s[1..], t)
  }

  /** CaseInsensitiveContains: the upper-cased substr occurs in the upper-cased s. */
  function CaseInsensitiveContains(s: string, substr: string): (r: bool)
    ensures r <==> exists i :: OccursAt(Upper(s), Upper(substr), i)
    ensures |substr| == 0 ==> r
    ensures r ==> |substr| <= |s|
  {
    assert OccursAt(Upper(s), Upper(substr), 0) <== |substr| == 0;
    Contains(Upper(s), Upper(substr))
  }

  lemma UpperIdempotent(s: string)
    ensures Upper(Upper(s)) == Upper(s)
  {
  }

  /** The test ignores the case of both arguments: two spellings that differ only in
      letter case give the same answer. */
  lemma CaseInsensitiveContainsIgnoresCase(s1: string, s2: string, t1: string, t2: string)
    requires Upper(s1) == Upper(s2) && Upper(t1) == Upper(t2)
    ensures CaseInsensitiveContains(s1, t1) == CaseInsensitiveContains(s2, t2)
  {
  }

  /** In particular upper-casing either argument first changes nothing. */
  lemma CaseInsensitiveContainsOfUpper(s: string, t: string)
    ensures CaseInsensitiveContains(Upper(s), t) == CaseInsensitiveContains(s, t)
    ensures CaseInsensitiveContains(s, Upper(t)) == CaseInsensitiveContains(s, t)
  {
    UpperIdempotent(s);
    UpperIdempotent(t);
  }

  /** A string that holds a character the (upper-cased) pattern has and the (upper-cased)
      text lacks cannot be found in it. */
  lemma {:induction false} NotContainedWhenCharMissing(s: string, t: string, j: nat)
    requires j < |t|
    requires forall k :: 0 <= k < |s| ==> UpperChar(s[k]) != UpperChar(t[j])
    ensures !CaseInsensitiveContains(s, t)
  {
    forall i | 0 <= i && i + |t| <= |s| ensures !OccursAt(Upper(s), Upper(t), i) {
      assert Upper(s)[i..i + |t|][j] == Upper(s)[i + j] != Upper(t)[j];
    }
  }

  /** The same, when neither case of the character occurs in the text. */
  lemma CharMissingInBothCases(s: string, t: string, j: nat)
    requires j < |t|
    requires UpperChar(t[j]) !in s && LowerChar(t[j]) !in s
    ensures !CaseInsensitiveContains(s, t)
  {
    forall k | 0 <= k < |s| ensures UpperChar(s[k]) != UpperChar(t[j]) {
      assert s[k] in s;
    }
    NotContainedWhenCharMissing(s, t, j);
  }

  /** A witness position proves the case-insensitive containment. */
  lemma ContainedAt(s: string, t: string, i: nat)
    requires i + |t| <= |s|
    requires forall k :: 0 <= k < |t| ==> UpperChar(s[i + k]) == UpperChar(t[k])
    ensures CaseInsensitiveContains(s, t)
  {
    assert Upper(s)[i..i + |t|] == Upper(t);
    assert OccursAt(Upper(s), Upper(t), i);
  }
}
