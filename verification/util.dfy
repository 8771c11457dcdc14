/** The match oracle of `util.ts`: the first identifier of card A, in A's
    order, that card B also holds, or `None` when they share none. Only
    identifiers are compared. */
module Util {
  import opened Wrappers
  import opened Types
  import opened Generate
  import opened Plane

  /** The elements of `s` in first-occurrence order, as a JavaScript `Set`
      built from `s` iterates them; `seen` holds what was already inserted. */
  function DedupFrom(s: seq<int>, seen: set<int>): (r: seq<int>)
    ensures forall v :: v in r <==> v in s && v !in seen
    ensures forall i, j :: 0 <= i < j < |r| ==> r[i] != r[j]
  {
    if |s| == 0 then
      []
    else if s[0] in seen then
      DedupFrom(s[1..], seen)
    else
      var rest := DedupFrom(s[1..], seen + {s[0]});
      [s[0]] + rest
  }

  /** `new Set(s)`, in iteration order. */
  function Dedup(s: seq<int>): (r: seq<int>)
    ensures forall v :: v in r <==> v in s
    ensures forall i, j :: 0 <= i < j < |r| ==> r[i] != r[j]
  {
    DedupFrom(s, {})
  }

  /** The first element of `s` that `b` holds, scanning from the front. */
  function FirstIn(s: seq<int>, b: set<int>): (r: Option<int>)
    ensures r.None? <==> forall i :: 0 <= i < |s| ==> s[i] !in b
    ensures r.Some? ==> exists i :: 0 <= i < |s| && s[i] == r.value && r.value in b &&
                                     forall k :: 0 <= k < i ==> s[k] !in b
  {
    if |s| == 0 then
      None
    else if s[0] in b then
      Some(s[0])
    else
      var r := FirstIn(s[1..], b);
      assert forall i :: 1 <= i < |s| ==> s[i] == s[1..][i - 1];
      r
  }

  /** Removing repeated elements never changes which element is found first,
      as long as nothing already seen is in `b`. */
  lemma {:induction false} FirstInDedupFrom(s: seq<int>, seen: set<int>, b: set<int>)
    requires forall v :: v in seen ==> v !in b
    ensures FirstIn(DedupFrom(s, seen), b) == FirstIn(s, b)
    decreases |s|
  {
    if |s| > 0 {
      if s[0] in seen {
        FirstInDedupFrom(s[1..], seen, b);
      } else if s[0] !in b {
        FirstInDedupFrom(s[1..], seen + {s[0]}, b);
        assert DedupFrom(s, seen) == [s[0]] + DedupFrom(s[1..], seen + {s[0]});
        assert ([s[0]] + DedupFrom(s[1..], seen + {s[0]}))[1..] == DedupFrom(s[1..], seen + {s[0]});
      }
    }
  }

  lemma FirstInDedup(s: seq<int>, b: set<int>)
    ensures FirstIn(Dedup(s), b) == FirstIn(s, b)
  {
    FirstInDedupFrom(s, {}, b);
  }

  /** The set of a card's identifiers: `new Set(card.symbols.map(s => s.id))`. */
  function IdSet(card: Card): (r: set<int>)
    ensures forall v :: v in r <==> v in Ids(card)
  {
    set v | v in Ids(card)
  }

  /** The set holds what its iteration yields, and its `size` is the number
      of distinct identifiers on the card. */
  lemma IdSetSize(card: Card)
    ensures IdSet(card) == set v | v in Dedup(Ids(card))
    ensures |IdSet(card)| == |Dedup(Ids(card))|
  {
    var d := Dedup(Ids(card));
    assert IdSet(card) == set v | v in d;
    DistinctCard(d);
  }

  /** A sequence without repeats has as many distinct elements as entries. */
  lemma {:induction false} DistinctCard(s: seq<int>)
    requires forall i, j :: 0 <= i < j < |s| ==> s[i] != s[j]
    ensures |set v | v in s| == |s|
    decreases |s|
  {
    if |s| > 0 {
      var tail := s[1..];
      DistinctCard(tail);
      assert (set v | v in s) == {s[0]} + (set v | v in tail) by {
        assert s == [s[0]] + tail;
      }
      assert s[0] !in tail;
    }
  }

  /** `findCommonSymbol(a, b)`: scan the set of A's identifiers in insertion
      order and return the first one B's set holds. */
  function FindCommonSymbol(a: Card, b: Card): (r: Option<int>)
    ensures r.Some? ==> r.value in Ids(a) && r.value in Ids(b)
    ensures r.None? <==> Common(Ids(a), Ids(b)) == {}
    ensures r.Some? ==> exists i :: 0 <= i < |Ids(a)| && Ids(a)[i] == r.value &&
                                     forall k :: 0 <= k < i ==> Ids(a)[k] !in Ids(b)
  {
    FirstInDedup(Ids(a), IdSet(b));
    var r := FirstIn(Dedup(Ids(a)), IdSet(b));
    r
  }

  /** Only identifiers are compared: cards with the same identifiers in the
      same order give the same answer wherever their symbols are placed. */
  lemma OnlyIdsMatter(a: Card, b: Card, a2: Card, b2: Card)
    requires Ids(a) == Ids(a2) && IdSet(b) == IdSet(b2)
    ensures FindCommonSymbol(a, b) == FindCommonSymbol(a2, b2)
  {
  }

  /** When two cards share exactly one identifier, the oracle finds it in
      either argument order. */
  lemma SymmetricWhenUnique(a: Card, b: Card)
    requires |Common(Ids(a), Ids(b))| == 1
    ensures FindCommonSymbol(a, b) == FindCommonSymbol(b, a)
    ensures FindCommonSymbol(a, b).Some? && Common(Ids(a), Ids(b)) == {FindCommonSymbol(a, b).value}
  {
    var c := Common(Ids(a), Ids(b));
    CommonSymm(Ids(a), Ids(b));
    var w :| w in c;
    assert c == {w} by {
      forall v | v in c ensures v == w {
        if v != w {
          assert {v, w} <= c;
          assert |{v, w}| == 2;
          SubsetCard({v, w}, c);
        }
      }
    }
    var r1, r2 := FindCommonSymbol(a, b), FindCommonSymbol(b, a);
    assert r1.value in c && r2.value in c;
  }

  lemma SubsetCard(s: set<int>, t: set<int>)
    requires s <= t
    ensures |s| <= |t|
  {
    assert t == s + (t - s);
  }

  /** Two distinct cards of a generated deck always match, and the match is
      their one shared identifier. */
  lemma GeneratedCardsMatch(n: int, sample: (nat, nat, nat) -> Pos, i: int, j: int)
    requires GenerateDobbleDeck(n, sample).Success?
    requires 0 <= i < |GenerateDobbleDeck(n, sample).value|
    requires 0 <= j < |GenerateDobbleDeck(n, sample).value|
    requires i != j
    ensures var deck := GenerateDobbleDeck(n, sample).value;
            FindCommonSymbol(deck[i], deck[j]).Some? &&
            Common(Ids(deck[i]), Ids(deck[j])) == {FindCommonSymbol(deck[i], deck[j]).value}
  {
    var deck := GenerateDobbleDeck(n, sample).value;
    GeneratedCardsShareOne(n, sample, i, j);
    SymmetricWhenUnique(deck[i], deck[j]);
  }
}
