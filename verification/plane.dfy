/** Properties of the deck `generateDobbleDeck` builds: every card holds
    `n + 1` distinct identifiers in `[0, n² + n]`, cards sit in push order,
    and, for prime `n`, any two distinct cards share exactly one identifier. */
module Plane {
  import opened ModArith
  import opened Types
  import opened Generate

  // ---------------------------------------------------------------------
  // Identifiers of points

  /** An affine identifier determines its point: `x` is the identifier mod
      `n` and `y` the quotient, and it lies below `n²`. */
  lemma AffineIdDecode(n: int, x: int, y: int)
    requires n > 0 && 0 <= x < n && 0 <= y < n
    ensures 0 <= AffineId(n, x, y) < n * n
    ensures AffineId(n, x, y) % n == x && AffineId(n, x, y) / n == y
  {
    DivModUnique(AffineId(n, x, y), n, y, x);
    MulMono(y, n - 1, n);
  }

  lemma QuotientBelow(n: int, v: int)
    requires n > 0 && 0 <= v < n * n
    ensures 0 <= v / n < n
  {
    if v / n >= n {
      MulMono(n, v / n, n);
    }
  }

  /** Every identifier below `n²` is the affine point `(v mod n, v / n)`. */
  lemma AffineIdOf(n: int, v: int)
    requires n > 0 && 0 <= v < n * n
    ensures 0 <= v % n < n && 0 <= v / n < n
    ensures v == AffineId(n, v % n, v / n)
  {
    QuotientBelow(n, v);
  }

  // ---------------------------------------------------------------------
  // Which identifiers a card holds (incidence)

  /** Entry `x` of a slanted card is the affine point `(x, (m·x + c) mod n)`. */
  lemma SlantedEntry(n: int, m: int, c: int, x: int)
    requires n > 0 && 0 <= m < n && 0 <= c < n && 0 <= x < n
    ensures CardIds(n, Slanted(m, c))[x] == AffineId(n, x, (m * x + c) % n)
    ensures 0 <= (m * x + c) % n < n
  {
  }

  /** The affine point `(x, y)` lies on `y = m·x + c` exactly when its card holds it. */
  lemma SlantedAt(n: int, m: int, c: int, x: int, y: int)
    requires n > 0 && 0 <= m < n && 0 <= c < n && 0 <= x < n && 0 <= y < n
    ensures AffineId(n, x, y) in CardIds(n, Slanted(m, c)) <==> y == (m * x + c) % n
  {
    var s := CardIds(n, Slanted(m, c));
    var v := AffineId(n, x, y);
    AffineIdDecode(n, x, y);
    if v in s {
      var i :| 0 <= i < |s| && s[i] == v;
      if i < n {
        SlantedEntry(n, m, c, i);
        AffineIdDecode(n, i, (m * i + c) % n);
      }
    }
    if y == (m * x + c) % n {
      SlantedEntry(n, m, c, x);
    }
  }

  /** Apart from affine points, a slanted card holds only its slope point. */
  lemma SlantedAtInfinity(n: int, m: int, c: int, v: int)
    requires n > 0 && 0 <= m < n && 0 <= c < n
    ensures v in CardIds(n, Slanted(m, c)) && !(0 <= v < n * n) <==> v == SlopeId(n, m)
  {
    var s := CardIds(n, Slanted(m, c));
    if v in s {
      var i :| 0 <= i < |s| && s[i] == v;
      if i < n {
        SlantedEntry(n, m, c, i);
        AffineIdDecode(n, i, (m * i + c) % n);
      }
    }
    assert s[n] == SlopeId(n, m);
  }

  /** The card of `y = m·x + c` holds exactly the affine points on that line
      and the point at infinity of slope `m`. */
  lemma InSlanted(n: int, m: int, c: int, v: int)
    requires n > 0 && 0 <= m < n && 0 <= c < n
    ensures v in CardIds(n, Slanted(m, c)) <==>
              (0 <= v < n * n && v / n == (m * (v % n) + c) % n) || v == SlopeId(n, m)
  {
    SlantedAtInfinity(n, m, c, v);
    if 0 <= v < n * n {
      AffineIdOf(n, v);
      SlantedAt(n, m, c, v % n, v / n);
    }
  }

  /** Entry `y` of the vertical card `x = k` is the affine point `(k, y)`. */
  lemma VerticalAt(n: int, k: int, x: int, y: int)
    requires n > 0 && 0 <= k < n && 0 <= x < n && 0 <= y < n
    ensures AffineId(n, x, y) in CardIds(n, Vertical(k)) <==> x == k
  {
    var s := CardIds(n, Vertical(k));
    var v := AffineId(n, x, y);
    AffineIdDecode(n, x, y);
    if v in s {
      var i :| 0 <= i < |s| && s[i] == v;
      if i < n {
        AffineIdDecode(n, k, i);
      }
    }
    if x == k {
      assert s[y] == v;
    }
  }

  lemma VerticalAtInfinity(n: int, k: int, v: int)
    requires n > 0 && 0 <= k < n
    ensures v in CardIds(n, Vertical(k)) && !(0 <= v < n * n) <==> v == VerticalId(n)
  {
    var s := CardIds(n, Vertical(k));
    if v in s {
      var i :| 0 <= i < |s| && s[i] == v;
      if i < n {
        AffineIdDecode(n, k, i);
      }
    }
    assert s[n] == VerticalId(n);
  }

  /** The card of `x = k` holds exactly the affine points with abscissa `k`
      and the vertical point at infinity. */
  lemma InVertical(n: int, k: int, v: int)
    requires n > 0 && 0 <= k < n
    ensures v in CardIds(n, Vertical(k)) <==> (0 <= v < n * n && v % n == k) || v == VerticalId(n)
  {
    VerticalAtInfinity(n, k, v);
    if 0 <= v < n * n {
      AffineIdOf(n, v);
      VerticalAt(n, k, v % n, v / n);
    }
  }

  /** The line at infinity holds exactly the `n + 1` points at infinity. */
  lemma InInfinity(n: int, v: int)
    requires n > 0
    ensures v in CardIds(n, AtInfinity) <==> n * n <= v <= n * n + n
  {
    var s := CardIds(n, AtInfinity);
    if n * n <= v < n * n + n {
      assert s[v - n * n] == v;
    }
  }

  // ---------------------------------------------------------------------
  // Shape of a card

  /** Every card has `n + 1` identifiers, pairwise distinct, all in `[0, n² + n]`. */
  lemma CardShape(n: int, line: Line)
    requires n > 0 && ValidLine(n, line)
    ensures |CardIds(n, line)| == n + 1
    ensures forall i :: 0 <= i < n + 1 ==> 0 <= CardIds(n, line)[i] <= n * n + n
    ensures forall i, j :: 0 <= i < j < n + 1 ==> CardIds(n, line)[i] != CardIds(n, line)[j]
  {
    match line
    case Slanted(m, c) => SlantedShape(n, m, c);
    case Vertical(k) => VerticalShape(n, k);
    case AtInfinity =>
  }

  lemma SlantedShape(n: int, m: int, c: int)
    requires n > 0 && 0 <= m < n && 0 <= c < n
    ensures forall i :: 0 <= i < n + 1 ==> 0 <= CardIds(n, Slanted(m, c))[i] <= n * n + n
    ensures forall i, j :: 0 <= i < j < n + 1 ==> CardIds(n, Slanted(m, c))[i] != CardIds(n, Slanted(m, c))[j]
  {
    var s := CardIds(n, Slanted(m, c));
    forall i | 0 <= i < n
      ensures 0 <= s[i] < n * n && s[i] % n == i
    {
      SlantedEntry(n, m, c, i);
      AffineIdDecode(n, i, (m * i + c) % n);
    }
  }

  lemma VerticalShape(n: int, k: int)
    requires n > 0 && 0 <= k < n
    ensures forall i :: 0 <= i < n + 1 ==> 0 <= CardIds(n, Vertical(k))[i] <= n * n + n
    ensures forall i, j :: 0 <= i < j < n + 1 ==> CardIds(n, Vertical(k))[i] != CardIds(n, Vertical(k))[j]
  {
    var s := CardIds(n, Vertical(k));
    forall i | 0 <= i < n
      ensures 0 <= s[i] < n * n && s[i] / n == i
    {
      AffineIdDecode(n, k, i);
    }
  }

  // ---------------------------------------------------------------------
  // Position of a card in the deck

  /** Distinct lines are pushed at distinct positions, all inside the deck. */
  lemma LineIndexInjective(n: int, l1: Line, l2: Line)
    requires n > 0 && ValidLine(n, l1) && ValidLine(n, l2)
    ensures 0 <= LineIndex(n, l1) < DeckSize(n)
    ensures LineIndex(n, l1) == LineIndex(n, l2) ==> l1 == l2
  {
    if l1.Slanted? {
      AffineIdDecode(n, l1.c, l1.m);
    }
    if l2.Slanted? {
      AffineIdDecode(n, l2.c, l2.m);
    }
  }

  /** Deck position and line are inverse to each other. */
  lemma LineAtIndex(n: int, line: Line)
    requires n > 0 && ValidLine(n, line)
    ensures 0 <= LineIndex(n, line) < DeckSize(n)
    ensures LineAt(n, LineIndex(n, line)) == line
  {
    LineIndexInjective(n, line, line);
    LineIndexInjective(n, LineAt(n, LineIndex(n, line)), line);
  }

  // ---------------------------------------------------------------------
  // Two distinct lines meet in exactly one point

  lemma CommonSymm(a: seq<int>, b: seq<int>)
    ensures Common(a, b) == Common(b, a)
  {
  }

  lemma SameRowIffRoot(n: int, m1: int, c1: int, m2: int, c2: int, d: int, t: int, x: int)
    requires n > 0 && d == m1 - m2 && t == c1 - c2
    ensures (m1 * x + c1) % n == (m2 * x + c2) % n <==> (d * x + t) % n == 0
  {
    CongIffSameMod(m1 * x + c1, m2 * x + c2, n);
    assert (m1 * x + c1) - (m2 * x + c2) == d * x + t;
  }

  /** Two slanted lines of different slopes cross in exactly one affine point:
      `(m1 - m2)·x ≡ c2 - c1` has one root because `m1 - m2` is invertible
      modulo the prime `n`. */
  lemma CrossingSlopes(n: int, m1: int, c1: int, m2: int, c2: int) returns (w: int)
    requires Prime(n) && 0 <= m2 < m1 < n && 0 <= c1 < n && 0 <= c2 < n
    ensures Common(CardIds(n, Slanted(m1, c1)), CardIds(n, Slanted(m2, c2))) == {w}
  {
    var a, b := CardIds(n, Slanted(m1, c1)), CardIds(n, Slanted(m2, c2));
    var d, t := m1 - m2, c1 - c2;
    var x0 := UniqueRoot(n, d, t);
    var y0 := (m1 * x0 + c1) % n;
    SameRowIffRoot(n, m1, c1, m2, c2, d, t, x0);
    w := AffineId(n, x0, y0);
    SlantedAt(n, m1, c1, x0, y0);
    SlantedAt(n, m2, c2, x0, y0);
    forall v | v in a && v in b
      ensures v == w
    {
      CrossingOnly(n, m1, c1, m2, c2, d, t, x0, v);
    }
  }

  /** Any point on both crossing lines is the root's point. */
  lemma CrossingOnly(n: int, m1: int, c1: int, m2: int, c2: int, d: int, t: int, x0: int, v: int)
    requires n > 0 && 0 <= m2 < m1 < n && 0 <= c1 < n && 0 <= c2 < n
    requires d == m1 - m2 && t == c1 - c2 && 0 <= x0 < n
    requires forall x :: 0 <= x < n && (d * x + t) % n == 0 ==> x == x0
    requires v in CardIds(n, Slanted(m1, c1)) && v in CardIds(n, Slanted(m2, c2))
    ensures v == AffineId(n, x0, (m1 * x0 + c1) % n)
  {
    SlantedAtInfinity(n, m1, c1, v);
    SlantedAtInfinity(n, m2, c2, v);
    assert 0 <= v < n * n;
    AffineIdOf(n, v);
    CrossingAffine(n, m1, c1, m2, c2, d, t, x0, v % n, v / n);
  }

  lemma CrossingAffine(n: int, m1: int, c1: int, m2: int, c2: int, d: int, t: int, x0: int, x: int, y: int)
    requires n > 0 && 0 <= m2 < m1 < n && 0 <= c1 < n && 0 <= c2 < n
    requires d == m1 - m2 && t == c1 - c2 && 0 <= x < n && 0 <= y < n
    requires forall x :: 0 <= x < n && (d * x + t) % n == 0 ==> x == x0
    requires AffineId(n, x, y) in CardIds(n, Slanted(m1, c1)) && AffineId(n, x, y) in CardIds(n, Slanted(m2, c2))
    ensures x == x0 && y == (m1 * x0 + c1) % n
  {
    SlantedAt(n, m1, c1, x, y);
    SlantedAt(n, m2, c2, x, y);
    SameRowIffRoot(n, m1, c1, m2, c2, d, t, x);
  }

  /** Two distinct parallel slanted lines share only their point at infinity. */
  lemma ParallelSlopes(n: int, m: int, c1: int, c2: int)
    requires n > 0 && 0 <= m < n && 0 <= c1 < n && 0 <= c2 < n && c1 != c2
    ensures Common(CardIds(n, Slanted(m, c1)), CardIds(n, Slanted(m, c2))) == {SlopeId(n, m)}
  {
    var a, b := CardIds(n, Slanted(m, c1)), CardIds(n, Slanted(m, c2));
    SlantedAtInfinity(n, m, c1, SlopeId(n, m));
    SlantedAtInfinity(n, m, c2, SlopeId(n, m));
    forall v | v in a && v in b
      ensures v == SlopeId(n, m)
    {
      ParallelOnly(n, m, c1, c2, v);
    }
  }

  lemma ParallelOnly(n: int, m: int, c1: int, c2: int, v: int)
    requires n > 0 && 0 <= m < n && 0 <= c1 < n && 0 <= c2 < n && c1 != c2
    requires v in CardIds(n, Slanted(m, c1)) && v in CardIds(n, Slanted(m, c2))
    ensures v == SlopeId(n, m)
  {
    SlantedAtInfinity(n, m, c1, v);
    if 0 <= v < n * n {
      AffineIdOf(n, v);
      var x, y := v % n, v / n;
      SlantedAt(n, m, c1, x, y);
      SlantedAt(n, m, c2, x, y);
      SameRowIffRoot(n, m, c1, m, c2, 0, c1 - c2, x);
      assert Cong(c1, c2, n);
      CongSmallEq(c1, c2, n);
    }
  }

  /** A slanted line meets the vertical line `x = k` at its point of abscissa `k`. */
  lemma SlantedMeetsVertical(n: int, m: int, c: int, k: int) returns (w: int)
    requires n > 0 && 0 <= m < n && 0 <= c < n && 0 <= k < n
    ensures Common(CardIds(n, Slanted(m, c)), CardIds(n, Vertical(k))) == {w}
  {
    var a, b := CardIds(n, Slanted(m, c)), CardIds(n, Vertical(k));
    var y := (m * k + c) % n;
    w := AffineId(n, k, y);
    SlantedAt(n, m, c, k, y);
    VerticalAt(n, k, k, y);
    forall v | v in a && v in b
      ensures v == w
    {
      SlantedAtInfinity(n, m, c, v);
      VerticalAtInfinity(n, k, v);
      AffineIdOf(n, v);
      SlantedAt(n, m, c, v % n, v / n);
      VerticalAt(n, k, v % n, v / n);
    }
  }

  /** A slanted line meets the line at infinity at its slope point. */
  lemma SlantedMeetsInfinity(n: int, m: int, c: int)
    requires n > 0 && 0 <= m < n && 0 <= c < n
    ensures Common(CardIds(n, Slanted(m, c)), CardIds(n, AtInfinity)) == {SlopeId(n, m)}
  {
    var a, b := CardIds(n, Slanted(m, c)), CardIds(n, AtInfinity);
    forall v
      ensures v in a && v in b <==> v == SlopeId(n, m)
    {
      InSlanted(n, m, c, v);
      InInfinity(n, v);
    }
  }

  /** Two distinct vertical lines share only the vertical point at infinity. */
  lemma VerticalsMeet(n: int, k1: int, k2: int)
    requires n > 0 && 0 <= k1 < n && 0 <= k2 < n && k1 != k2
    ensures Common(CardIds(n, Vertical(k1)), CardIds(n, Vertical(k2))) == {VerticalId(n)}
  {
    var a, b := CardIds(n, Vertical(k1)), CardIds(n, Vertical(k2));
    forall v
      ensures v in a && v in b <==> v == VerticalId(n)
    {
      InVertical(n, k1, v);
      InVertical(n, k2, v);
    }
  }

  /** A vertical line meets the line at infinity at the vertical point. */
  lemma VerticalMeetsInfinity(n: int, k: int)
    requires n > 0 && 0 <= k < n
    ensures Common(CardIds(n, Vertical(k)), CardIds(n, AtInfinity)) == {VerticalId(n)}
  {
    var a, b := CardIds(n, Vertical(k)), CardIds(n, AtInfinity);
    forall v
      ensures v in a && v in b <==> v == VerticalId(n)
    {
      InVertical(n, k, v);
      InInfinity(n, v);
    }
  }

  /** Any two distinct lines of the plane of prime order `n` meet in exactly
      one point: their cards share exactly one identifier. */
  lemma LinesMeetOnce(n: int, l1: Line, l2: Line) returns (w: int)
    requires Prime(n) && ValidLine(n, l1) && ValidLine(n, l2) && l1 != l2
    ensures Common(CardIds(n, l1), CardIds(n, l2)) == {w}
  {
    var a, b := CardIds(n, l1), CardIds(n, l2);
    CommonSymm(a, b);
    match (l1, l2)
    case (Slanted(m1, c1), Slanted(m2, c2)) =>
      if m1 > m2 {
        w := CrossingSlopes(n, m1, c1, m2, c2);
      } else if m1 < m2 {
        w := CrossingSlopes(n, m2, c2, m1, c1);
      } else {
        ParallelSlopes(n, m1, c1, c2);
        w := SlopeId(n, m1);
      }
    case (Slanted(m, c), Vertical(k)) =>
      w := SlantedMeetsVertical(n, m, c, k);
    case (Vertical(k), Slanted(m, c)) =>
      w := SlantedMeetsVertical(n, m, c, k);
    case (Slanted(m, c), AtInfinity) =>
      SlantedMeetsInfinity(n, m, c);
      w := SlopeId(n, m);
    case (AtInfinity, Slanted(m, c)) =>
      SlantedMeetsInfinity(n, m, c);
      w := SlopeId(n, m);
    case (Vertical(k1), Vertical(k2)) =>
      VerticalsMeet(n, k1, k2);
      w := VerticalId(n);
    case (Vertical(k), AtInfinity) =>
      VerticalMeetsInfinity(n, k);
      w := VerticalId(n);
    case (AtInfinity, Vertical(k)) =>
      VerticalMeetsInfinity(n, k);
      w := VerticalId(n);
  }

  // ---------------------------------------------------------------------
  // The generated deck

  /** Placing symbols never changes the identifiers of a card. */
  lemma PlacedIds(ids: seq<int>, sample: (nat, nat) -> Pos)
    ensures Ids(Card(PlaceSymbols(ids, sample))) == ids
  {
  }

  /** The card at position `i` of a generated deck carries the identifiers of
      line `LineAt(n, i)`. */
  lemma GeneratedIds(n: int, sample: (nat, nat, nat) -> Pos, i: int)
    requires GenerateDobbleDeck(n, sample).Success?
    requires 0 <= i < |GenerateDobbleDeck(n, sample).value|
    ensures n > 0 && i < DeckSize(n)
    ensures Ids(GenerateDobbleDeck(n, sample).value[i]) == CardIds(n, LineAt(n, i))
  {
    PlacedIds(CardIds(n, LineAt(n, i)), CardSample(sample, i));
  }

  /** The deck lists the `n²` slanted cards first, card `(m, c)` at position
      `m·n + c`, then vertical card `k` at `n² + k`, then the line at
      infinity last, at `n² + n`; each card's identifiers follow the
      generator's push order. */
  lemma DeckOrder(n: int, sample: (nat, nat, nat) -> Pos, line: Line)
    requires GenerateDobbleDeck(n, sample).Success? && ValidLine(n, line)
    ensures 0 <= LineIndex(n, line) < |GenerateDobbleDeck(n, sample).value|
    ensures Ids(GenerateDobbleDeck(n, sample).value[LineIndex(n, line)]) == CardIds(n, line)
  {
    LineAtIndex(n, line);
    GeneratedIds(n, sample, LineIndex(n, line));
  }

  /** The identifiers on each card, position by position. */
  lemma CardContents(n: int, line: Line)
    requires n > 0 && ValidLine(n, line)
    ensures |CardIds(n, line)| == n + 1
    ensures line.Slanted? ==> forall x :: 0 <= x < n ==>
              CardIds(n, line)[x] == ((line.m * x + line.c) % n) * n + x
    ensures line.Slanted? ==> CardIds(n, line)[n] == n * n + line.m
    ensures line.Vertical? ==> forall y :: 0 <= y < n ==> CardIds(n, line)[y] == y * n + line.k
    ensures line.AtInfinity? ==> forall m :: 0 <= m < n ==> CardIds(n, line)[m] == n * n + m
    ensures !line.Slanted? ==> CardIds(n, line)[n] == n * n + n
  {
  }

  /** Every card of a generated deck has `n + 1` distinct identifiers in
      `[0, n² + n]`. */
  lemma GeneratedCardShape(n: int, sample: (nat, nat, nat) -> Pos, i: int)
    requires GenerateDobbleDeck(n, sample).Success?
    requires 0 <= i < |GenerateDobbleDeck(n, sample).value|
    ensures |Ids(GenerateDobbleDeck(n, sample).value[i])| == n + 1
    ensures forall j :: 0 <= j < n + 1 ==> 0 <= Ids(GenerateDobbleDeck(n, sample).value[i])[j] <= n * n + n
    ensures forall j, k :: 0 <= j < k < n + 1 ==>
              Ids(GenerateDobbleDeck(n, sample).value[i])[j] != Ids(GenerateDobbleDeck(n, sample).value[i])[k]
  {
    GeneratedIds(n, sample, i);
    CardShape(n, LineAt(n, i));
  }

  /** The game's invariant: any two distinct cards of a generated deck share
      exactly one identifier. */
  lemma GeneratedCardsShareOne(n: int, sample: (nat, nat, nat) -> Pos, i: int, j: int)
    requires GenerateDobbleDeck(n, sample).Success?
    requires 0 <= i < |GenerateDobbleDeck(n, sample).value|
    requires 0 <= j < |GenerateDobbleDeck(n, sample).value|
    requires i != j
    ensures |Common(Ids(GenerateDobbleDeck(n, sample).value[i]), Ids(GenerateDobbleDeck(n, sample).value[j]))| == 1
  {
    GeneratedIds(n, sample, i);
    GeneratedIds(n, sample, j);
    var l1, l2 := LineAt(n, i), LineAt(n, j);
    assert l1 != l2 by {
      assert LineIndex(n, l1) == i && LineIndex(n, l2) == j;
    }
    var w := LinesMeetOnce(n, l1, l2);
  }

  /** Symbols of one card keep their distance: each one either sits at the
      fallback centre or lies at least the minimum distance from every symbol
      placed before it on the same card. */
  lemma LayoutSeparation(ids: seq<int>, sample: (nat, nat) -> Pos, j: int, k: int)
    requires 0 <= k < j < |ids|
    ensures var s := PlaceSymbols(ids, sample);
            s[j].pos == Center || !TooClose(s[j].pos, s[k].pos)
  {
    var s := PlaceSymbols(ids, sample);
    assert SitsAt(s, sample, j);
    assert s[..j][k] == s[k];
  }
}
