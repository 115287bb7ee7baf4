/** Derivation of the shuffle seed from the password: the sum of its code points. */
module Seed {

  /** The largest Unicode code point; every `char` lies at or below it. */
  const MaxCodePoint: nat := 0x10FFFF

  /** The generator accepts seeds in [0, 2^32); a larger sum makes seeding fail. */
  const SeedLimit: nat := 0x1_0000_0000

  /** Sum of the code points of `password`. */
  function PasswordSeed(password: string): (r: nat)
    ensures password == [] ==> r == 0
    ensures r <= MaxCodePoint * |password|
  {
    if |password| == 0 then 0
    else password[0] as nat + PasswordSeed(password[1..])
  }

  predicate SeedInRange(seed: nat) {
    seed < SeedLimit
  }

  /** Every password of at most 3855 characters has an accepted seed; longer passwords of
      high code points can exceed the generator's range. */
  lemma ShortPasswordSeedInRange(password: string)
    requires |password| <= 3855
    ensures SeedInRange(PasswordSeed(password))
  {
    assert MaxCodePoint * |password| <= MaxCodePoint * 3855;
  }

  /** The seed of a concatenation is the sum of the seeds. */
  lemma {:induction false} SeedAppend(a: string, b: string)
    ensures PasswordSeed(a + b) == PasswordSeed(a) + PasswordSeed(b)
  {
    if |a| > 0 {
      assert (a + b)[1..] == a[1..] + b;
      SeedAppend(a[1..], b);
    } else {
      assert a + b == b;
    }
  }

  /** Removing one character lowers the seed by exactly its code point. */
  lemma SeedRemoveAt(s: string, i: nat)
    requires i < |s|
    ensures PasswordSeed(s) == s[i] as nat + PasswordSeed(s[..i] + s[i + 1..])
  {
    var pre, post := s[..i], s[i + 1..];
    var tail := [s[i]] + post;
    assert s == pre + tail;
    SeedAppend(pre, tail);
    assert tail[1..] == post;
    assert PasswordSeed(tail) == s[i] as nat + PasswordSeed(post);
    SeedAppend(pre, post);
  }

  /** Passwords that are rearrangements of the same characters yield the same seed
      (the collision weakness of a character-sum derivation). */
  lemma {:induction false} SeedPermutationInvariant(s: string, t: string)
    requires multiset(s) == multiset(t)
    ensures PasswordSeed(s) == PasswordSeed(t)
    decreases |s|
  {
    if |s| > 0 {
      assert s[0] in multiset(t);
      var i :| 0 <= i < |t| && t[i] == s[0];
      var t' := t[..i] + t[i + 1..];
      assert t == t[..i] + [t[i]] + t[i + 1..];
      assert s == [s[0]] + s[1..];
      assert multiset(t) == multiset(t[..i]) + multiset{t[i]} + multiset(t[i + 1..]);
      assert multiset(t') == multiset(t[..i]) + multiset(t[i + 1..]);
      assert multiset(s) == multiset{s[0]} + multiset(s[1..]);
      assert multiset(s[1..]) == multiset(s) - multiset{s[0]};
      assert multiset(t') == multiset(t) - multiset{t[i]};
      assert multiset(s[1..]) == multiset(t');
      SeedPermutationInvariant(s[1..], t');
      SeedRemoveAt(t, i);
    } else {
      assert |t| == |multiset(t)| == 0;
    }
  }
}
