/** The symbol and card records of the Dobble deck (`types.ts`). A symbol
    keeps its identifier and its placement offset from the card centre;
    rotation and scale are not modelled. */
module Types {

  /** An offset from the card centre, in percent of the card radius. */
  datatype Pos = Pos(x: real, y: real)

  /** One symbol instance on one card. */
  datatype Symbol = Symbol(id: int, pos: Pos)

  /** A card: its symbol instances in placement order. */
  datatype Card = Card(symbols: seq<Symbol>)

  /** The identifiers of a card's symbols, in the card's order. */
  function Ids(card: Card): (r: seq<int>)
    ensures |r| == |card.symbols|
    ensures forall i :: 0 <= i < |r| ==> r[i] == card.symbols[i].id
  {
    seq(|card.symbols|, i requires 0 <= i < |card.symbols| => card.symbols[i].id)
  }

  lemma IdsAppend(symbols: seq<Symbol>, next: Symbol, ids: seq<int>)
    requires |ids| > 0 && Ids(Card(symbols)) == ids[..|ids| - 1] && next.id == ids[|ids| - 1]
    ensures Ids(Card(symbols + [next])) == ids
  {
    var r := Ids(Card(symbols + [next]));
    assert |r| == |ids|;
    forall i | 0 <= i < |ids|
      ensures r[i] == ids[i]
    {
      if i < |symbols| {
        assert Ids(Card(symbols))[i] == ids[i];
      }
    }
  }

  /** The identifiers two id sequences have in common. */
  function Common(a: seq<int>, b: seq<int>): set<int>
  {
    set v | v in a && v in b
  }
}
