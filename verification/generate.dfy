/** The deck constructor of `generate.ts`: the finite projective plane of
    prime order `n` over the integers modulo `n`, one card per line, each
    symbol placed by bounded rejection sampling. The random source is a
    parameter: `sample(card, symbol, attempt)` is the candidate position
    offered on that attempt. */
module Generate {
  import opened Wrappers
  import opened ModArith
  import opened Types

  /** Minimum centre-to-centre distance between two symbols of one card. */
  const MinDistanceBetweenSymbols: real := 22.0
  /** Number of candidate positions tried before falling back. */
  const MaxPlacementAttempts: nat := 50
  /** The fallback position: the card centre. */
  const Center: Pos := Pos(0.0, 0.0)

  // ---------------------------------------------------------------------
  // isPrime

  lemma MulMono(a: int, b: int, c: int)
    requires 0 <= a <= b && c >= 0
    ensures a * c <= b * c
  {
    if a < b && c > 0 {
      MulAtLeast(c, b - a);
      assert b * c - a * c == c * (b - a);
    }
  }

  /** The trial-division loop of `isPrime`, from divisor `i` on: no `d >= i`
      with `d*d <= num` divides `num`. (`d <= Math.sqrt(num)` is `d*d <= num`
      for integers.) */
  function NoDivisorFrom(num: int, i: int): (b: bool)
    requires i >= 2
    ensures b <==> forall d :: i <= d && d * d <= num ==> num % d != 0
    decreases num - i
  {
    if i * i > num then
      assert forall d :: i <= d ==> i * i <= d * d by {
        forall d | i <= d ensures i * i <= d * d {
          MulMono(i, d, i);
          MulMono(i, d, d);
        }
      }
      true
    else if num % i == 0 then
      false
    else
      MulAtLeast(i, i);
      NoDivisorFrom(num, i + 1)
  }

  /** `isPrime`: numbers up to 1 are not prime; otherwise trial division by
      every `i` from 2 while `i*i <= num`. The result is exactly primality. */
  function IsPrime(num: int): (b: bool)
    ensures b <==> Prime(num)
  {
    if num <= 1 then
      false
    else
      TrialDivisionDecidesPrimality(num);
      NoDivisorFrom(num, 2)
  }

  /** Trial division up to the square root suffices: a number at least 2
      with no divisor `d` in `[2, sqrt(num)]` has no proper divisor at all. */
  lemma TrialDivisionDecidesPrimality(num: int)
    requires num >= 2
    ensures Prime(num) <==> forall d :: 2 <= d && d * d <= num ==> num % d != 0
  {
    if forall d :: 2 <= d && d * d <= num ==> num % d != 0 {
      forall k | 2 <= k < num
        ensures num % k != 0
      {
        if num % k == 0 {
          var e := num / k;
          assert num == e * k;
          if e <= 1 {
            MulMono(e, 1, k);
            assert false;
          }
          if k <= e {
            MulMono(k, e, k);
            assert false;
          } else {
            MulMono(e, k, e);
            assert e * e <= num;
            DivModUnique(num, e, k, 0);
            assert false;
          }
        }
      }
    }
    if Prime(num) {
      forall d | 2 <= d && d * d <= num
        ensures num % d != 0
      {
        MulMono(2, d, d);
      }
    }
  }

  // ---------------------------------------------------------------------
  // mod

  /** The `mod` helper: `((val % m) + m) % m` with JavaScript's truncating
      `%`. For a positive modulus it is the Euclidean remainder; for a
      negative one it lands in `(m, 0]`, still congruent to `val`. */
  function Mod(val: int, m: int): (r: int)
    requires m != 0
    ensures m > 0 ==> 0 <= r < m && r == val % m
    ensures m < 0 ==> m < r <= 0 && Cong(r, val, -m)
  {
    var t := JsRem(val, m);
    var r := JsRem(t + m, m);
    var p := Abs(m);
    // t ≡ val, t + m ≡ t, r ≡ t + m
    MultipleIsCong(t + m, t, if m > 0 then 1 else -1, p);
    CongSymm(val, t, p);
    CongTrans(t + m, t, val, p);
    CongSymm(t + m, r, p);
    CongTrans(r, t + m, val, p);
    if m > 0 then
      CongIffSameMod(r, val, p);
      DivModUnique(r, p, 0, r);
      r
    else
      r
  }

  // ---------------------------------------------------------------------
  // generateValidPosition

  /** Closer than the minimum distance (compared squared, which is
      equivalent to comparing `Math.sqrt(dx*dx + dy*dy)`). */
  predicate TooClose(a: Pos, b: Pos)
  {
    var dx := a.x - b.x;
    var dy := a.y - b.y;
    dx * dx + dy * dy < MinDistanceBetweenSymbols * MinDistanceBetweenSymbols
  }

  /** The `existingSymbols.some(...)` collision test. */
  predicate Overlapping(p: Pos, existing: seq<Symbol>)
  {
    exists k :: 0 <= k < |existing| && TooClose(p, existing[k].pos)
  }

  /** Closeness does not depend on which symbol is measured from, and a
      position is too close to itself. */
  lemma TooCloseSymmetric(a: Pos, b: Pos)
    ensures TooClose(a, b) == TooClose(b, a)
    ensures TooClose(a, a)
  {
    assert (a.x - b.x) * (a.x - b.x) == (b.x - a.x) * (b.x - a.x);
    assert (a.y - b.y) * (a.y - b.y) == (b.y - a.y) * (b.y - a.y);
  }

  /** `some` over no symbols is false, and over one more symbol it is the
      old answer or a collision with the new one. */
  lemma OverlappingAppend(p: Pos, existing: seq<Symbol>, next: Symbol)
    ensures !Overlapping(p, [])
    ensures Overlapping(p, existing + [next]) <==> Overlapping(p, existing) || TooClose(p, next.pos)
  {
    var all := existing + [next];
    if Overlapping(p, all) && !TooClose(p, next.pos) {
      var k :| 0 <= k < |all| && TooClose(p, all[k].pos);
      assert k < |existing| && all[k] == existing[k];
    }
    if Overlapping(p, existing) {
      var k :| 0 <= k < |existing| && TooClose(p, existing[k].pos);
      assert all[k] == existing[k];
    }
    if TooClose(p, next.pos) {
      assert all[|existing|] == next;
    }
  }

  /** Attempt `a` (counted from `from`) is the first whose candidate is free. */
  ghost predicate FirstFreeAttempt(candidate: nat -> Pos, existing: seq<Symbol>, from: nat, a: nat)
  {
    && from <= a < MaxPlacementAttempts
    && !Overlapping(candidate(a), existing)
    && forall b :: from <= b < a ==> Overlapping(candidate(b), existing)
  }

  /** `generateValidPosition`, entered at attempt `from` (the source starts
      at 0): the `while (attempts < MAX_PLACEMENT_ATTEMPTS)` loop returns the
      first free candidate, or the centre once every attempt collided. The
      result is either the centre or clear of every existing symbol. */
  function PlaceFrom(candidate: nat -> Pos, existing: seq<Symbol>, from: nat): (p: Pos)
    ensures p == Center || !Overlapping(p, existing)
    decreases MaxPlacementAttempts - from
  {
    if from >= MaxPlacementAttempts then
      Center
    else if !Overlapping(candidate(from), existing) then
      candidate(from)
    else
      PlaceFrom(candidate, existing, from + 1)
  }

  /** The placement is the candidate of the first free attempt, or the
      centre exactly when all of the remaining attempts collide. */
  lemma {:induction false} PlaceFromFirstFree(candidate: nat -> Pos, existing: seq<Symbol>, from: nat)
    ensures || (exists a :: FirstFreeAttempt(candidate, existing, from, a) &&
                            PlaceFrom(candidate, existing, from) == candidate(a))
            || ((forall a :: from <= a < MaxPlacementAttempts ==> Overlapping(candidate(a), existing)) &&
                PlaceFrom(candidate, existing, from) == Center)
    decreases MaxPlacementAttempts - from
  {
    if from >= MaxPlacementAttempts {
    } else if !Overlapping(candidate(from), existing) {
      assert FirstFreeAttempt(candidate, existing, from, from);
    } else {
      PlaceFromFirstFree(candidate, existing, from + 1);
      assert forall a :: FirstFreeAttempt(candidate, existing, from + 1, a) ==>
                         FirstFreeAttempt(candidate, existing, from, a);
    }
  }

  /** The attempts offered to symbol `j` of a card. */
  function Attempts(sample: (nat, nat) -> Pos, j: nat): nat -> Pos
  {
    (a: nat) => sample(j, a)
  }

  /** Symbol `j` of `symbols` sits where `generateValidPosition` put it,
      given the symbols `0..j-1` before it on the same card, and only those. */
  ghost predicate SitsAt(symbols: seq<Symbol>, sample: (nat, nat) -> Pos, j: nat)
    requires j < |symbols|
  {
    symbols[j].pos == PlaceFrom(Attempts(sample, j), symbols[..j], 0)
  }

  /** Every symbol of `symbols` was placed in order. */
  ghost predicate PlacedInOrder(symbols: seq<Symbol>, sample: (nat, nat) -> Pos)
  {
    forall j: nat :: j < |symbols| ==> SitsAt(symbols, sample, j)
  }

  /** `createSymbol` applied to each identifier in turn: symbol `j` keeps
      `ids[j]` and is placed against the symbols already on this card. */
  function PlaceSymbols(ids: seq<int>, sample: (nat, nat) -> Pos): (r: seq<Symbol>)
    ensures Ids(Card(r)) == ids
    ensures PlacedInOrder(r, sample)
    decreases |ids|
  {
    if |ids| == 0 then
      []
    else
      var prev := PlaceSymbols(ids[..|ids| - 1], sample);
      var next := Symbol(ids[|ids| - 1], PlaceFrom(Attempts(sample, |prev|), prev, 0));
      ExtendPlaced(prev, next, sample);
      IdsAppend(prev, next, ids);
      prev + [next]
  }

  lemma ExtendPlaced(prev: seq<Symbol>, next: Symbol, sample: (nat, nat) -> Pos)
    requires PlacedInOrder(prev, sample)
    requires next.pos == PlaceFrom(Attempts(sample, |prev|), prev, 0)
    ensures PlacedInOrder(prev + [next], sample)
  {
    var r := prev + [next];
    forall j: nat | j < |r|
      ensures SitsAt(r, sample, j)
    {
      if j < |prev| {
        SitsOnPrefix(prev, r, sample, j);
      } else {
        assert r[..j] == prev;
      }
    }
  }

  /** Whether symbol `j` sits where it should depends only on symbols `0..j`. */
  lemma SitsOnPrefix(s: seq<Symbol>, t: seq<Symbol>, sample: (nat, nat) -> Pos, j: nat)
    requires j < |s| <= |t| && s == t[..|s|] && SitsAt(s, sample, j)
    ensures SitsAt(t, sample, j)
  {
    assert s[..j] == t[..j];
  }

  // ---------------------------------------------------------------------
  // Points and lines

  /** Number of points, and of lines, in the plane of order `n`. */
  function DeckSize(n: int): int
  {
    n * n + n + 1
  }

  /** Affine point `(x, y)`. */
  function AffineId(n: int, x: int, y: int): int
  {
    y * n + x
  }

  /** Point at infinity of slope `m`. */
  function SlopeId(n: int, m: int): int
  {
    n * n + m
  }

  /** Point at infinity of the vertical lines. */
  function VerticalId(n: int): int
  {
    n * n + n
  }

  /** A line of the plane: `y = m·x + c`, `x = k`, or the line at infinity. */
  datatype Line = Slanted(m: int, c: int) | Vertical(k: int) | AtInfinity

  predicate ValidLine(n: int, line: Line)
  {
    match line
    case Slanted(m, c) => 0 <= m < n && 0 <= c < n
    case Vertical(k) => 0 <= k < n
    case AtInfinity => true
  }

  /** The position at which the generator pushes the card of `line`:
      slanted lines in `(m, c)` order, then vertical lines, then infinity. */
  function LineIndex(n: int, line: Line): (i: int)
    ensures n > 0 && ValidLine(n, line) ==> 0 <= i < DeckSize(n)
  {
    match line
    case Slanted(m, c) =>
      assert n > 0 && ValidLine(n, line) ==> m * n + c < n * n by {
        if n > 0 && ValidLine(n, line) {
          MulMono(m, n - 1, n);
        }
      }
      m * n + c
    case Vertical(k) => n * n + k
    case AtInfinity => n * n + n
  }

  /** The line whose card sits at deck position `i`. */
  function LineAt(n: int, i: int): (line: Line)
    requires n > 0 && 0 <= i < DeckSize(n)
    ensures ValidLine(n, line)
    ensures LineIndex(n, line) == i
  {
    if i < n * n then
      assert i / n < n by {
        if i / n >= n {
          MulMono(n, i / n, n);
        }
      }
      Slanted(i / n, i % n)
    else if i < n * n + n then
      Vertical(i - n * n)
    else
      AtInfinity
  }

  /** The identifiers on the card of `line`, in push order. */
  function CardIds(n: int, line: Line): (ids: seq<int>)
    requires n > 0
    ensures |ids| == n + 1
  {
    match line
    case Slanted(m, c) =>
      seq(n, x requires 0 <= x < n => AffineId(n, x, Mod(m * x + c, n))) + [SlopeId(n, m)]
    case Vertical(k) =>
      seq(n, y requires 0 <= y < n => AffineId(n, k, y)) + [VerticalId(n)]
    case AtInfinity =>
      seq(n, m requires 0 <= m < n => SlopeId(n, m)) + [VerticalId(n)]
  }

  // ---------------------------------------------------------------------
  // generateDobbleDeck

  datatype DeckError =
    | NotPositive  // the order is not a positive integer
    | NotPrime     // the order is positive but not prime

  /** The placement attempts for the symbols of deck card `i`. */
  function CardSample(sample: (nat, nat, nat) -> Pos, i: nat): (nat, nat) -> Pos
  {
    (j: nat, a: nat) => sample(i, j, a)
  }

  /** `generateDobbleDeck`: rejects `n <= 0` and non-prime `n`; otherwise one
      card per line of the plane, in push order, with its symbols placed. */
  function GenerateDobbleDeck(n: int, sample: (nat, nat, nat) -> Pos): (r: Result<seq<Card>, DeckError>)
    ensures n <= 0 ==> r == Failure(NotPositive)
    ensures n > 0 && !Prime(n) ==> r == Failure(NotPrime)
    ensures Prime(n) ==> r.Success? && |r.value| == DeckSize(n)
    ensures r.Success? ==> Prime(n)
    ensures r.Success? ==> forall i :: 0 <= i < |r.value| ==>
              r.value[i].symbols == PlaceSymbols(CardIds(n, LineAt(n, i)), CardSample(sample, i))
  {
    if n <= 0 then
      Failure(NotPositive)
    else if !IsPrime(n) then
      Failure(NotPrime)
    else
      Success(seq(DeckSize(n), i requires 0 <= i < DeckSize(n) =>
        Card(PlaceSymbols(CardIds(n, LineAt(n, i)), CardSample(sample, i)))))
  }
}
