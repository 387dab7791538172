/**
 * The 26 lowercase Latin letters, and the scan both string generators use to
 * pick the smallest letter that is not banned.
 */
module Letters {
  import opened Wrappers

  predicate IsLetter(c: char)
  {
    'a' <= c <= 'z'
  }

  /** The `i`-th letter of the alphabet, counting from 0. */
  function Letter(i: nat): (c: char)
    requires i < 26
    ensures IsLetter(c)
  {
    ('a' as int + i) as char
  }

  /** The smallest letter from the `i`-th on that is not banned, if any. */
  function MinFreeFrom(banned: set<char>, i: nat): (r: Option<char>)
    requires i <= 26
    ensures r.Some? ==> i < 26 && IsLetter(r.value) && r.value !in banned && Letter(i) <= r.value
    ensures r.Some? ==> forall j :: i <= j < 26 && Letter(j) < r.value ==> Letter(j) in banned
    ensures r.None? ==> forall j :: i <= j < 26 ==> Letter(j) in banned
    decreases 26 - i
  {
    if i == 26 then None
    else if Letter(i) !in banned then Some(Letter(i))
    else MinFreeFrom(banned, i + 1)
  }

  /** The smallest letter not in `banned`, or `None` when all 26 are banned. */
  function MinFree(banned: set<char>): Option<char>
  {
    MinFreeFrom(banned, 0)
  }

  /** `MinFree` is the least letter outside `banned`, and `None` only when every letter is banned. */
  lemma MinFreeSpec(banned: set<char>)
    ensures MinFree(banned).Some? ==>
              IsLetter(MinFree(banned).value) && MinFree(banned).value !in banned &&
              forall c :: 'a' <= c < MinFree(banned).value ==> c in banned
    ensures MinFree(banned).None? <==> forall c :: IsLetter(c) ==> c in banned
  {
    var r := MinFree(banned);
    forall c | IsLetter(c)
      ensures c == Letter(c as int - 'a' as int)
    {
    }
    if r.Some? {
      forall c | 'a' <= c < r.value
        ensures c in banned
      {
        assert c == Letter(c as int - 'a' as int);
      }
    }
  }

  /**
   * Scans the letters from 'a' to 'z' and returns the first one that is not
   * banned, or `None` when every letter is banned.
   */
  method SmallestFreeLetter(banned: set<char>) returns (r: Option<char>)
    ensures r == MinFree(banned)
  {
    for i := 0 to 26
      invariant MinFreeFrom(banned, i) == MinFree(banned)
    {
      if Letter(i) !in banned {
        return Some(Letter(i));
      }
    }
    return None;
  }
}
