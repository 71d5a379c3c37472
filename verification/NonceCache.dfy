/** A bounded replay cache, against the unbounded list of every pair it accepted. */
module NonceCache {
  import opened Strings

  /** The cache key of a pair. */
  function Key(did: string, nonce: string): string { did + ":" + nonce }

  /** The newest entries, as many as are kept. */
  function Window(accepted: seq<(string, string)>, max: int): seq<(string, string)> {
    if max <= 0 then [] else if |accepted| > max then accepted[|accepted| - max..] else accepted
  }

  function Keys(pairs: seq<(string, string)>): (r: seq<string>)
    ensures |r| == |pairs| && forall k :: 0 <= k < |pairs| ==> r[k] == Key(pairs[k].0, pairs[k].1)
  {
    seq(|pairs|, k requires 0 <= k < |pairs| => Key(pairs[k].0, pairs[k].1))
  }

  class NonceCache {
    const maxEntries: int
    /** Keys in insertion order. */
    var entries: seq<string>
    ghost var accepted: seq<(string, string)>

    ghost predicate Valid()
      reads this
    {
      entries == Keys(Window(accepted, maxEntries))
    }

    constructor (maxEntries: int)
      ensures Valid() && accepted == [] && this.maxEntries == maxEntries
    {
      this.maxEntries := maxEntries;
      entries, accepted := [], [];
    }

    /** `store`: refused exactly when the key is that of one of the last `maxEntries` accepted pairs. */
    method Store(did: string, nonce: string) returns (novel: bool)
      requires Valid()
      modifies this
      ensures Valid()
      ensures novel <==> !Refused(old(accepted), maxEntries, did, nonce)
      ensures accepted == if novel then old(accepted) + [(did, nonce)] else old(accepted)
    {
      var key := Key(did, nonce);
      if key in entries { return false; }
      ghost var was := Window(accepted, maxEntries);
      entries, accepted := entries + [key], accepted + [(did, nonce)];
      assert entries == Keys(was + [(did, nonce)]);
      if |entries| > maxEntries {
        if |entries| > 0 { entries := entries[1..]; }
      }
      novel := true;
    }
  }

  lemma LongerDidTakesAColon(did: string, nonce: string, did': string, nonce': string)
    requires |did| < |did'| && Key(did, nonce) == Key(did', nonce')
    ensures Has(nonce, ':')
  {
    var k := Key(did, nonce);
    assert Key(did', nonce')[|did'|] == ':';
    assert k[|did'|] == nonce[|did'| - |did| - 1];
  }

  /** Where the last colon of a key stands tells the pair, if the nonce has none. */
  lemma KeyInjective(did: string, nonce: string, did': string, nonce': string)
    requires !Has(nonce, ':') && !Has(nonce', ':') && Key(did, nonce) == Key(did', nonce')
    ensures did == did' && nonce == nonce'
  {
    if |did| < |did'| {
      LongerDidTakesAColon(did, nonce, did', nonce');
    } else if |did'| < |did| {
      LongerDidTakesAColon(did', nonce', did, nonce);
    } else {
      var k, k' := Key(did, nonce), Key(did', nonce');
      assert k[..|did|] == did && k'[..|did|] == did';
      assert k[|did| + 1..] == nonce && k'[|did| + 1..] == nonce';
    }
  }

  predicate ColonFree(pairs: seq<(string, string)>) {
    forall k :: 0 <= k < |pairs| ==> !Has(pairs[k].1, ':')
  }

  /** `store` refuses the pair, where these pairs were accepted before. */
  predicate Refused(accepted: seq<(string, string)>, max: int, did: string, nonce: string) {
    Key(did, nonce) in Keys(Window(accepted, max))
  }

  /** Refused exactly when one of the last `max` accepted pairs gives the same text with a colon in between. */
  lemma RefusedIffAmongLast(accepted: seq<(string, string)>, max: int, did: string, nonce: string)
    ensures Refused(accepted, max, did, nonce) <==>
              exists k :: 0 <= k < |accepted| && k >= |accepted| - max
                          && accepted[k].0 + ":" + accepted[k].1 == did + ":" + nonce
  {
    var recent := Window(accepted, max);
    var from := if max <= 0 then |accepted| else if |accepted| > max then |accepted| - max else 0;
    assert recent == accepted[from..];
    if Refused(accepted, max, did, nonce) {
      var k :| 0 <= k < |recent| && Keys(recent)[k] == Key(did, nonce);
      assert accepted[from + k] == recent[k];
    }
    forall k | 0 <= k < |accepted| && k >= |accepted| - max
               && accepted[k].0 + ":" + accepted[k].1 == did + ":" + nonce
      ensures Refused(accepted, max, did, nonce)
    {
      assert recent[k - from] == accepted[k] && Keys(recent)[k - from] == Key(did, nonce);
    }
  }

  /** With colon-free nonces the cache refuses exactly the pairs among the last accepted ones. */
  lemma RefusesExactlyRecentPairs(accepted: seq<(string, string)>, max: int, did: string, nonce: string)
    requires !Has(nonce, ':') && ColonFree(accepted)
    ensures Refused(accepted, max, did, nonce) <==> (did, nonce) in Window(accepted, max)
  {
    hide Key;
    var recent := Window(accepted, max);
    forall k | 0 <= k < |recent| && Keys(recent)[k] == Key(did, nonce) ensures recent[k] == (did, nonce) {
      KeyInjective(did, nonce, recent[k].0, recent[k].1);
    }
    RefusedIffRecent(accepted, max, did, nonce);
  }

  lemma RefusedIffRecent(accepted: seq<(string, string)>, max: int, did: string, nonce: string)
    requires var recent := Window(accepted, max);
             forall k :: 0 <= k < |recent| && Keys(recent)[k] == Key(did, nonce) ==> recent[k] == (did, nonce)
    ensures Refused(accepted, max, did, nonce) <==> (did, nonce) in Window(accepted, max)
  {
    hide Key;
    var recent := Window(accepted, max);
    if (did, nonce) in recent {
      var k :| 0 <= k < |recent| && recent[k] == (did, nonce);
      assert Keys(recent)[k] == Key(did, nonce);
    }
  }

  lemma {:induction false} LastColon(s: string) returns (i: nat)
    requires Has(s, ':')
    ensures i < |s| && s[i] == ':' && !Has(s[i + 1..], ':')
  {
    if s[|s| - 1] == ':' {
      i := |s| - 1;
    } else {
      var init := s[..|s| - 1];
      var k :| 0 <= k < |s| && s[k] == ':';
      assert init[k] == ':';
      i := LastColon(init);
      assert s[i + 1..] == init[i + 1..] + [s[|s| - 1]];
    }
  }

  /** A nonce with a colon shares its key with another pair, whose nonce has none: a fresh pair is refused. */
  lemma ColonsConfuse(max: int, did: string, nonce: string) returns (other: (string, string))
    requires max >= 1 && Has(nonce, ':')
    ensures other != (did, nonce) && ColonFree([other]) && Refused([other], max, did, nonce)
  {
    var i := LastColon(nonce);
    var a, b := nonce[..i], nonce[i + 1..];
    assert nonce == a + ":" + b;
    other := (did + ":" + a, b);
    assert did + ":" + (a + ":" + b) == did + ":" + a + ":" + b;
    assert Keys(Window([other], max))[0] == Key(did, nonce);
    assert |b| < |nonce|;
  }

  /**
   * Among caches of colon-free nonces, a pair is refused exactly when it is recent if and only if its nonce has no
   * colon.
   */
  lemma ExactIffColonFree(max: int, did: string, nonce: string)
    requires max >= 1
    ensures (forall accepted: seq<(string, string)> :: ColonFree(accepted) ==>
               (Refused(accepted, max, did, nonce) <==> (did, nonce) in Window(accepted, max)))
       <==> !Has(nonce, ':')
  {
    hide Refused;
    if Has(nonce, ':') {
      var other := ColonsConfuse(max, did, nonce);
      assert (did, nonce) !in Window([other], max);
    } else {
      forall accepted | ColonFree(accepted)
        ensures Refused(accepted, max, did, nonce) <==> (did, nonce) in Window(accepted, max)
      {
        RefusesExactlyRecentPairs(accepted, max, did, nonce);
      }
    }
  }

  /** With no colon on either side, a key has one place where it can be cut. */
  lemma KeyOfColonFreePair(did: string, nonce: string, did': string, nonce': string)
    requires !Has(did, ':') && !Has(nonce, ':') && Key(did, nonce) == Key(did', nonce')
    ensures did == did' && nonce == nonce'
  {
    var k, k' := Key(did, nonce), Key(did', nonce');
    if |did| < |did'| {
      LongerDidTakesAColon(did, nonce, did', nonce');
    } else {
      assert k'[|did'|] == ':';
      assert k[..|did|] == did && k'[..|did'|] == did';
      assert k[|did| + 1..] == nonce && k'[|did'| + 1..] == nonce';
    }
  }

  /** A DID with a colon, as every DID has, shares its key with a pair of a shorter DID and a longer nonce. */
  lemma DidColonsConfuse(max: int, did: string, nonce: string) returns (other: (string, string))
    requires max >= 1 && Has(did, ':')
    ensures other != (did, nonce) && Has(other.1, ':') && Refused([other], max, did, nonce)
  {
    var i :| 0 <= i < |did| && did[i] == ':';
    var a, b := did[..i], did[i + 1..];
    assert did == a + ":" + b;
    other := (a, b + ":" + nonce);
    assert other.1[|b|] == ':' && |a| < |did|;
    assert a + ":" + (b + ":" + nonce) == a + ":" + b + ":" + nonce;
    assert Keys(Window([other], max))[0] == Key(did, nonce);
  }

  /**
   * Over all caches, a pair is refused exactly when it is recent if and only if neither its DID nor its nonce has a
   * colon.
   */
  lemma ExactIffNoColons(max: int, did: string, nonce: string)
    requires max >= 1
    ensures (forall accepted: seq<(string, string)> ::
               Refused(accepted, max, did, nonce) <==> (did, nonce) in Window(accepted, max))
            <==> !Has(did, ':') && !Has(nonce, ':')
  {
    hide Refused;
    if Has(did, ':') || Has(nonce, ':') {
      var other;
      if Has(nonce, ':') {
        other := ColonsConfuse(max, did, nonce);
      } else {
        other := DidColonsConfuse(max, did, nonce);
      }
      assert (did, nonce) !in Window([other], max);
    } else {
      forall accepted: seq<(string, string)>
        ensures Refused(accepted, max, did, nonce) <==> (did, nonce) in Window(accepted, max)
      {
        RefusesRecentColonFreePair(accepted, max, did, nonce);
      }
    }
  }

  lemma RefusesRecentColonFreePair(accepted: seq<(string, string)>, max: int, did: string, nonce: string)
    requires !Has(did, ':') && !Has(nonce, ':')
    ensures Refused(accepted, max, did, nonce) <==> (did, nonce) in Window(accepted, max)
  {
    hide Key;
    var recent := Window(accepted, max);
    forall k | 0 <= k < |recent| && Keys(recent)[k] == Key(did, nonce) ensures recent[k] == (did, nonce) {
      KeyOfColonFreePair(did, nonce, recent[k].0, recent[k].1);
    }
    RefusedIffRecent(accepted, max, did, nonce);
  }
}
