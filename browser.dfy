/** Values shared by the page's handlers: optional values, the effect a click
    handler leaves for the browser, and JavaScript's String.prototype.includes. */
module Browser {

  datatype Option<T> = None | Some(value: T)

  /** What a click handler asks the browser to do once it returns. */
  datatype Effect =
    | NoEffect                  // nothing user-visible happens
    | Navigate(url: string)     // `window.location.href = url`
    | Alert(message: string)    // a blocking `alert(message)`, location unchanged
    | Thrown(error: string)     // the handler threw this JavaScript error; nothing else happens

  /** `sub` occurs in `s` starting at index `k`. */
  predicate OccursAt(s: string, sub: string, k: nat)
  {
    k + |sub| <= |s| && s[k..k + |sub|] == sub
  }

  /** `s.includes(sub)`: searches `s` left to right for an occurrence of `sub`. */
  function Includes(s: string, sub: string): (r: bool)
    ensures r <==> exists k: nat :: OccursAt(s, sub, k)
    decreases |s|
  {
    if |sub| > |s| then
      false
    else if s[..|sub|] == sub then
      assert OccursAt(s, sub, 0);
      true
    else
      var rest := Includes(s[1..], sub);
      ShiftOccurrence(s, sub);
      rest
  }

  /** An occurrence past the first index of `s` is an occurrence in `s[1..]`. */
  lemma ShiftOccurrence(s: string, sub: string)
    requires |s| > 0 && !OccursAt(s, sub, 0)
    ensures (exists k: nat :: OccursAt(s, sub, k)) <==> (exists k: nat :: OccursAt(s[1..], sub, k))
  {
    forall k: nat | OccursAt(s[1..], sub, k)
      ensures OccursAt(s, sub, k + 1)
    {
      assert s[1..][k..k + |sub|] == s[k + 1..k + 1 + |sub|];
    }
    forall k: nat | OccursAt(s, sub, k)
      ensures k > 0 && OccursAt(s[1..], sub, k - 1)
    {
      assert s[1..][k - 1..k - 1 + |sub|] == s[k..k + |sub|];
    }
  }

  /** Searching for a one-character string is membership of that character. */
  lemma IncludesCharacter(s: string, c: char)
    ensures Includes(s, [c]) <==> c in s
  {
    if c in s {
      var k :| 0 <= k < |s| && s[k] == c;
      assert s[k..k + 1] == [c];
      assert OccursAt(s, [c], k);
    }
    forall k: nat | OccursAt(s, [c], k) ensures s[k] == c {
      assert s[k..k + 1][0] == s[k];
    }
  }
}
