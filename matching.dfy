/**
  `fuzzy_match`: the glossary entry whose key is most similar to a term, by
  the block-matching ratio of `difflib.get_close_matches` with `n=1` and
  `cutoff=0.6`. The glossary is the list of its `(key, description)` items in
  insertion order. How many characters the matching blocks of two strings
  cover is left to a parameter (`BlockCount`), since the model does not
  rebuild difflib's longest-matching-block search.
*/
module Matching {
  import opened Wrappers
  import opened Strings

  /** One glossary item: a domain term and its description. */
  datatype Entry = Entry(key: string, description: string)

  /**
    The glossary's items, in the order the dictionary holds them. A sequence
    can repeat a key, which a dictionary cannot; `DistinctKeys` states the
    dictionary's guarantee where a property needs it.
  */
  type Glossary = seq<Entry>

  /** No key occurs twice, as in a dictionary. */
  predicate DistinctKeys(glossary: Glossary) {
    forall i, j :: 0 <= i < |glossary| && 0 <= j < |glossary| && glossary[i].key == glossary[j].key ==> i == j
  }

  /**
    The number of characters covered by the matching blocks that
    `SequenceMatcher(None, a, b)` finds; supplied from outside the model.
  */
  type BlockCount = (string, string) -> nat

  /**
    The matched-character count the ratio is computed from. No count exceeds
    either string, and the blocks cover both strings entirely exactly when
    the strings are equal: two different strings of the same length always
    differ somewhere, so at least one of their characters stays unmatched.
  */
  function Matched(blocks: BlockCount, a: string, b: string): (m: nat)
    ensures m <= |a| && m <= |b|
    ensures a == b <==> m == |a| == |b|
  {
    if a == b then |a|
    else
      var most: nat := if |a| == |b| then |a| - 1 else if |a| < |b| then |a| else |b|;
      var n := blocks(a, b);
      if n <= most then n else most
  }

  /** `SequenceMatcher.ratio()`: twice the matched count over the total length, 1.0 for two empty strings. */
  function Ratio(blocks: BlockCount, key: string, query: string): (r: real)
    ensures 0.0 <= r <= 1.0
    ensures key == query ==> r == 1.0
  {
    var total := |key| + |query|;
    if total == 0 then 1.0
    else
      var m := Matched(blocks, key, query);
      DivAtMostOne((2 * m) as real, total as real);
      (2 * m) as real / total as real
  }

  /** The cutoff of `get_close_matches`. */
  const Cutoff: real := 0.6

  /** An entry passes the cutoff when its key's ratio to the query reaches 0.6. */
  predicate Passes(blocks: BlockCount, query: string, e: Entry) {
    Ratio(blocks, e.key, query) >= Cutoff
  }

  lemma MulNonNegative(a: real, b: real)
    requires a >= 0.0 && b >= 0.0
    ensures a * b >= 0.0
  {
  }

  lemma MulPositive(a: real, b: real)
    requires a > 0.0 && b > 0.0
    ensures a * b > 0.0
  {
  }

  /** A quotient of a non-negative number by a larger one lies in [0, 1]. */
  lemma DivAtMostOne(x: real, t: real)
    requires 0.0 <= x <= t && t > 0.0
    ensures 0.0 <= x / t <= 1.0
  {
    DivAtLeast(x, t, 0.0);
    var q := x / t;
    assert q * t == x;
  }

  /** Only a key equal to the query reaches ratio 1. */
  lemma RatioOneOnlyEqual(blocks: BlockCount, key: string, query: string)
    requires Ratio(blocks, key, query) == 1.0
    ensures key == query
  {
    var total := |key| + |query|;
    if total == 0 {
      assert key == [] == query;
    } else {
      var m := Matched(blocks, key, query);
      DivAtLeast((2 * m) as real, total as real, 1.0);
      assert 2 * m >= total;
    }
  }

  /** Comparing a quotient with a bound is comparing the dividend with the bound times the divisor. */
  lemma DivAtLeast(x: real, t: real, c: real)
    requires t > 0.0
    ensures x / t >= c <==> x >= c * t
  {
    var q := x / t;
    assert q * t == x;
    if q >= c {
      MulNonNegative(q - c, t);
      assert (q - c) * t == q * t - c * t;
    } else {
      MulPositive(c - q, t);
      assert (c - q) * t == c * t - q * t;
    }
  }

  /** The cutoff in whole numbers: ten matched characters for every three of total length. */
  lemma CutoffInIntegers(blocks: BlockCount, key: string, query: string)
    ensures Ratio(blocks, key, query) >= Cutoff
      <==> 10 * Matched(blocks, key, query) >= 3 * (|key| + |query|)
  {
    var total := |key| + |query|;
    var m := Matched(blocks, key, query);
    if total != 0 {
      var t := total as real;
      var x := (2 * m) as real;
      assert Ratio(blocks, key, query) == x / t;
      DivAtLeast(x, t, Cutoff);
      assert x == 2.0 * (m as real);
    }
  }

  /**
    `heapq.nlargest(1, ...)` orders the candidates as `(ratio, key)` pairs:
    `a` outranks `b` when its ratio is higher, or equal with the larger key.
  */
  predicate Outranks(blocks: BlockCount, query: string, a: Entry, b: Entry) {
    var ra, rb := Ratio(blocks, a.key, query), Ratio(blocks, b.key, query);
    ra > rb || (ra == rb && Below(b.key, a.key))
  }

  lemma OutranksIrreflexive(blocks: BlockCount, query: string, a: Entry)
    ensures !Outranks(blocks, query, a, a)
  {
    BelowIrreflexive(a.key);
  }

  lemma OutranksTransitive(blocks: BlockCount, query: string, a: Entry, b: Entry, c: Entry)
    requires Outranks(blocks, query, a, b) && Outranks(blocks, query, b, c)
    ensures Outranks(blocks, query, a, c)
  {
    var ra, rb, rc := Ratio(blocks, a.key, query), Ratio(blocks, b.key, query), Ratio(blocks, c.key, query);
    if ra == rb && rb == rc {
      BelowTransitive(c.key, b.key, a.key);
    }
  }

  /** A candidate that outranks an unbeaten one is itself unbeaten. */
  lemma NewLeaderUnbeaten(blocks: BlockCount, query: string, entries: seq<Entry>, e: Entry, leader: Entry)
    requires forall d :: d in entries && Passes(blocks, query, d) ==> !Outranks(blocks, query, d, leader)
    requires Outranks(blocks, query, e, leader)
    ensures forall d :: d in entries && Passes(blocks, query, d) ==> !Outranks(blocks, query, d, e)
  {
    forall d | d in entries && Passes(blocks, query, d)
      ensures !Outranks(blocks, query, d, e)
    {
      if Outranks(blocks, query, d, e) {
        OutranksTransitive(blocks, query, d, e, leader);
      }
    }
  }

  /**
    The best entry passing the cutoff: scanning in order, a later candidate
    replaces the current one only when it strictly outranks it (`max` keeps
    the first of equal pairs). None passes exactly when the result is None;
    otherwise the result is an entry that passes and that no passing entry
    outranks.
  */
  function Best(blocks: BlockCount, query: string, entries: seq<Entry>): (best: Option<Entry>)
    ensures best.None? <==> forall e :: e in entries ==> !Passes(blocks, query, e)
    ensures best.Some? ==>
      && best.value in entries
      && Passes(blocks, query, best.value)
      && forall e :: e in entries && Passes(blocks, query, e) ==> !Outranks(blocks, query, e, best.value)
  {
    if entries == [] then None
    else
      var prefix := entries[..|entries| - 1];
      var e := entries[|entries| - 1];
      assert entries == prefix + [e];
      var rest := Best(blocks, query, prefix);
      if !Passes(blocks, query, e) then rest
      else if rest.None? then
        OutranksIrreflexive(blocks, query, e);
        Some(e)
      else if Outranks(blocks, query, e, rest.value) then
        OutranksIrreflexive(blocks, query, e);
        NewLeaderUnbeaten(blocks, query, prefix, e, rest.value);
        Some(e)
      else rest
  }

  /** What `fuzzy_match` returns: the best entry for the lower-cased term, or None. */
  datatype MatchResult = NoMatch | Match(key: string, description: string)

  /**
    `fuzzy_match(term, glossary)`: the term is lower-cased (the keys are
    not); the result is the entry of the best-ranked key whose ratio to it
    reaches 0.6, or NoMatch when no key does.
  */
  function FuzzyMatch(blocks: BlockCount, term: string, glossary: Glossary): (m: MatchResult)
    ensures m.NoMatch? <==> forall e :: e in glossary ==> !Passes(blocks, Lower(term), e)
    ensures m.Match? ==>
      && Entry(m.key, m.description) in glossary
      && Passes(blocks, Lower(term), Entry(m.key, m.description))
      && forall e :: e in glossary && Passes(blocks, Lower(term), e) ==>
           !Outranks(blocks, Lower(term), e, Entry(m.key, m.description))
  {
    match Best(blocks, Lower(term), glossary)
    case None => NoMatch
    case Some(e) => Match(e.key, e.description)
  }

  /**
    A key equal to the lower-cased term is the one returned; in a glossary
    with distinct keys, so is its own description.
  */
  lemma ExactKeyMatches(blocks: BlockCount, term: string, glossary: Glossary, e: Entry)
    requires e in glossary && e.key == Lower(term)
    ensures var m := FuzzyMatch(blocks, term, glossary);
      && m.Match? && m.key == Lower(term)
      && (DistinctKeys(glossary) ==> m.description == e.description)
  {
    var m := FuzzyMatch(blocks, term, glossary);
    assert Passes(blocks, Lower(term), e);
    var w := Entry(m.key, m.description);
    assert !Outranks(blocks, Lower(term), e, w);
    RatioOneOnlyEqual(blocks, m.key, Lower(term));
    if DistinctKeys(glossary) {
      var i :| 0 <= i < |glossary| && glossary[i] == w;
      var j :| 0 <= j < |glossary| && glossary[j] == e;
      assert glossary[i].key == glossary[j].key;
    }
  }

  /** An empty glossary never matches. */
  lemma EmptyGlossaryNoMatch(blocks: BlockCount, term: string)
    ensures FuzzyMatch(blocks, term, []) == NoMatch
  {
  }

  /**
    The length filter behind difflib's `real_quick_ratio`: a passing key is
    neither much shorter nor much longer than the query.
  */
  lemma PassingLengths(blocks: BlockCount, query: string, e: Entry)
    requires Passes(blocks, query, e)
    ensures 7 * |e.key| >= 3 * |query| && 7 * |query| >= 3 * |e.key|
  {
    CutoffInIntegers(blocks, e.key, query);
  }

  /** The returned key's length is within the same bounds of the term's. */
  lemma MatchLengths(blocks: BlockCount, term: string, glossary: Glossary)
    requires FuzzyMatch(blocks, term, glossary).Match?
    ensures var m := FuzzyMatch(blocks, term, glossary);
      7 * |m.key| >= 3 * |term| && 7 * |term| >= 3 * |m.key|
  {
    var m := FuzzyMatch(blocks, term, glossary);
    PassingLengths(blocks, Lower(term), Entry(m.key, m.description));
  }

  /** `"xyz"` is too short to match `customer_id`, whatever the matching blocks. */
  lemma ShortTermNoMatch(blocks: BlockCount, description: string)
    ensures FuzzyMatch(blocks, "xyz", [Entry("customer_id", description)]).NoMatch?
  {
    var e := Entry("customer_id", description);
    LowerKeeps("xyz");
    if Passes(blocks, "xyz", e) {
      PassingLengths(blocks, "xyz", e);
    }
  }

  /**
    `"custmer_id"` matches `customer_id`: its blocks `cust` and `mer_id`
    cover ten characters, a ratio of 20/21.
  */
  lemma MisspelledTermMatches(blocks: BlockCount, description: string)
    requires blocks("customer_id", "custmer_id") == 10
    ensures FuzzyMatch(blocks, "custmer_id", [Entry("customer_id", description)])
      == Match("customer_id", description)
  {
    var e := Entry("customer_id", description);
    LowerKeeps("custmer_id");
    assert Matched(blocks, "customer_id", "custmer_id") == 10;
    CutoffInIntegers(blocks, "customer_id", "custmer_id");
    assert Passes(blocks, "custmer_id", e);
  }

  /** The matched key passes the cutoff in its whole-number form. */
  lemma MatchPassesCutoff(blocks: BlockCount, term: string, glossary: Glossary)
    requires FuzzyMatch(blocks, term, glossary).Match?
    ensures var m := FuzzyMatch(blocks, term, glossary);
      10 * Matched(blocks, m.key, Lower(term)) >= 3 * (|m.key| + |term|)
  {
    var m := FuzzyMatch(blocks, term, glossary);
    CutoffInIntegers(blocks, m.key, Lower(term));
  }
}
