# Dobble deck, match oracle, solo game and router key — a Dafny model

This project models the core of the Dobble ("Spot It") game and the path-to-key rewrite of the router worker. It proves properties of that model.

- **Deck constructor** (`generate.ts`). `GenerateDobbleDeck` rejects an `n` that is not positive and an `n` that is not prime. For a prime `n` it builds the finite projective plane of order `n` over the integers modulo `n`, one card per line:
  - `n²` slanted lines `y = m·x + c`, pushed at position `m·n + c`;
  - then `n` vertical lines;
  - then the line at infinity.

  Point identifiers are `y·n + x` for affine points, `n² + m` for slope points and `n² + n` for the vertical point. The central theorem, `Plane.GeneratedCardsShareOne`, is that any two distinct cards share exactly one identifier. For two slanted lines of different slopes it rests on `(m1 − m2)` being invertible modulo the prime `n`. The inverse comes from the extended Euclidean algorithm in `ModArith`.

  Symbol placement (`generateValidPosition`) is bounded rejection sampling. There are at most 50 attempts, the minimum distance is 22, and the fallback is the card centre. Candidate positions are a parameter `sample(card, symbol, attempt)`.
- **Match oracle** (`util.ts`). `FindCommonSymbol` returns the first identifier, in card A's order, that card B holds, or `None`. A JavaScript `Set` iterates in insertion order, so the set of A's identifiers is modelled as the first occurrences of A's identifiers.
- **Solo game** (`page.tsx`). The game is a state record with these parts:
  - the user's card, the opponent's card and the pile;
  - the started and over flags;
  - the start time and elapsed time;
  - the shake flag.

  `StartGame` and `HandleSymbolClick` are pure transitions, and the wall-clock reading is a parameter. `FormatTime` renders milliseconds as `S.dd`, following JavaScript: `Math.floor` division and the truncating `%`.
- **Router key** (`index.ts`). The key is `environment/deployId/assetPath`:
  - `Segments` is the pathname's non-empty `/`-separated pieces;
  - `DeployId` is the first segment, or `core/home`;
  - `Environment` is `staging` or `production`;
  - `AssetPath` is the rest of the segments joined by `/`, with `index.html` appended unless the path names a file.

With 31 cards (`n = 5`) the deal leaves a pile of 29. The 29th correct match empties it and the 30th ends the game (`page.tsx:55-66`); `Game.ThirtyOneCardGame` states this.

Files:
- `wrappers.dfy`: `Option` and `Result`.
- `arith.dfy`: JavaScript's remainder, primality, congruences, the extended gcd, and the unique root of a linear congruence.
- `types.dfy`: symbols and cards.
- `generate.dfy`: `isPrime`, `mod`, placement, the card identifiers and the deck.
- `plane.dfy`: the deck theorems.
- `util.dfy`: `findCommonSymbol`.
- `game.dfy`: the page's state machine.
- `timefmt.dfy`: `formatTime`.
- `router.dfy`: the storage key.

## Model

| member | source | states |
|---|---|---|
| ModArith.JsRem | apps/games/dobble/lib/dobble/generate.ts:91 | JavaScript's `%`: the remainder is smaller in magnitude than the divisor, takes the sign of the dividend, and is congruent to the dividend |
| Generate.NoDivisorFrom | apps/games/dobble/lib/dobble/generate.ts:177-179 | the trial-division loop from `i` returns true exactly when no `d ≥ i` with `d·d ≤ num` divides `num` |
| Generate.TrialDivisionDecidesPrimality | apps/games/dobble/lib/dobble/generate.ts:177-180 | for `num ≥ 2`, no divisor in `[2, √num]` is equivalent to primality |
| Generate.IsPrime | apps/games/dobble/lib/dobble/generate.ts:175-181 | `isPrime(num)` holds exactly when `num` is prime (at least 2, with no divisor strictly between 1 and itself) |
| Generate.Mod | apps/games/dobble/lib/dobble/generate.ts:91 | for `m > 0` the result lies in `[0, m)` and equals `val mod m`; for `m < 0` it lies in `(m, 0]` and is congruent to `val` |
| Generate.PlaceFrom | apps/games/dobble/lib/dobble/generate.ts:14-45 | the position returned is either the centre `(0, 0)` or clear (distance ≥ 22) of every symbol already on the card |
| Generate.PlaceFromFirstFree | apps/games/dobble/lib/dobble/generate.ts:14-45 | the position is the candidate of the first non-colliding attempt among the first 50, or, when every remaining attempt collides, the centre |
| Generate.TooCloseSymmetric | apps/games/dobble/lib/dobble/generate.ts:26-34 | the collision test does not depend on which of the two symbols is measured from, and a position always collides with itself |
| Generate.OverlappingAppend | apps/games/dobble/lib/dobble/generate.ts:26-34 | `some` over no symbols is false, and over one more symbol it is the old answer or a collision with the new symbol |
| Generate.PlaceSymbols | apps/games/dobble/lib/dobble/generate.ts:94-108 | placing a card's symbols keeps the identifiers in push order, and each symbol is placed against exactly the symbols pushed before it on the same card |
| Generate.ExtendPlaced | apps/games/dobble/lib/dobble/generate.ts:132 | pushing a symbol placed against the current card keeps every earlier symbol's placement valid |
| Generate.LineAt | apps/games/dobble/lib/dobble/generate.ts:126-169 | deck position `i` belongs to exactly one valid line, the one the loops push at `i` |
| Generate.LineIndex | apps/games/dobble/lib/dobble/generate.ts:126-169 | every valid line is pushed at a position inside the deck, `[0, n² + n]` (that this is a bijection is Plane.LineIndexInjective and Plane.LineAtIndex) |
| Generate.CardIds | apps/games/dobble/lib/dobble/generate.ts:126-166 | every line's card has `n + 1` identifiers (which ones is Plane.InSlanted, Plane.InVertical and Plane.InInfinity) |
| Generate.GenerateDobbleDeck | apps/games/dobble/lib/dobble/generate.ts:77-172 | `n ≤ 0` fails with the positive-integer error; a non-prime `n > 0` fails with the prime error; a prime `n` succeeds with `n² + n + 1` cards, card `i` holding the placed identifiers of line `i`; success implies `n` is prime |
| Plane.AffineIdDecode | apps/games/dobble/lib/dobble/generate.ts:112-114 | the identifier of `(x, y)` lies below `n²` and gives back `x` as its remainder and `y` as its quotient |
| Plane.AffineIdOf | apps/games/dobble/lib/dobble/generate.ts:112-114 | every identifier below `n²` is the affine point `(v mod n, v / n)` |
| Plane.SlantedEntry | apps/games/dobble/lib/dobble/generate.ts:130-133 | entry `x` of the slanted card `(m, c)` is the point `(x, (m·x + c) mod n)` |
| Plane.SlantedAt | apps/games/dobble/lib/dobble/generate.ts:126-136 | the affine point `(x, y)` is on the slanted card `(m, c)` exactly when `y = (m·x + c) mod n` |
| Plane.SlantedAtInfinity | apps/games/dobble/lib/dobble/generate.ts:135-136 | the only non-affine identifier on a slanted card is its slope point `n² + m` |
| Plane.InSlanted | apps/games/dobble/lib/dobble/generate.ts:126-136 | an identifier is on the slanted card `(m, c)` if and only if it is an affine point on `y = m·x + c` or the slope point of `m` |
| Plane.VerticalAt | apps/games/dobble/lib/dobble/generate.ts:145-150 | the affine point `(x, y)` is on vertical card `k` exactly when `x = k` |
| Plane.VerticalAtInfinity | apps/games/dobble/lib/dobble/generate.ts:151-152 | the only non-affine identifier on a vertical card is `n² + n` |
| Plane.InVertical | apps/games/dobble/lib/dobble/generate.ts:145-152 | an identifier is on vertical card `k` if and only if it is an affine point with abscissa `k` or `n² + n` |
| Plane.InInfinity | apps/games/dobble/lib/dobble/generate.ts:160-166 | an identifier is on the line at infinity if and only if it lies in `[n², n² + n]` |
| Plane.CardShape | apps/games/dobble/lib/dobble/generate.ts:124-166 | every card has `n + 1` identifiers, all in `[0, n² + n]` and pairwise distinct |
| Plane.SlantedShape | apps/games/dobble/lib/dobble/generate.ts:126-136 | a slanted card's identifiers are in range and pairwise distinct |
| Plane.VerticalShape | apps/games/dobble/lib/dobble/generate.ts:145-152 | a vertical card's identifiers are in range and pairwise distinct |
| Plane.LineIndexInjective | apps/games/dobble/lib/dobble/generate.ts:126-169 | distinct lines are pushed at distinct positions, all inside the deck |
| Plane.LineAtIndex | apps/games/dobble/lib/dobble/generate.ts:126-169 | the line found at a line's push position is that line |
| Plane.SameRowIffRoot | apps/games/dobble/lib/dobble/generate.ts:131 | two slanted lines give the same row at `x` exactly when `x` is a root of `(m1 − m2)·x + (c1 − c2) ≡ 0` |
| Plane.CrossingSlopes | apps/games/dobble/lib/dobble/generate.ts:126-136 | two slanted cards of different slopes share exactly one identifier (prime `n`) |
| Plane.CrossingOnly | apps/games/dobble/lib/dobble/generate.ts:126-136 | any identifier on both crossing slanted cards is their root's point |
| Plane.CrossingAffine | apps/games/dobble/lib/dobble/generate.ts:130-133 | an affine point on both crossing slanted cards has the root as abscissa and the matching row |
| Plane.ParallelSlopes | apps/games/dobble/lib/dobble/generate.ts:126-136 | two distinct slanted cards of equal slope share exactly their slope point |
| Plane.ParallelOnly | apps/games/dobble/lib/dobble/generate.ts:126-136 | any identifier on two distinct parallel slanted cards is their slope point |
| Plane.SlantedMeetsVertical | apps/games/dobble/lib/dobble/generate.ts:126-152 | a slanted card and a vertical card share exactly one identifier |
| Plane.SlantedMeetsInfinity | apps/games/dobble/lib/dobble/generate.ts:126-166 | a slanted card and the line at infinity share exactly the slope point |
| Plane.VerticalsMeet | apps/games/dobble/lib/dobble/generate.ts:145-152 | two distinct vertical cards share exactly `n² + n` |
| Plane.VerticalMeetsInfinity | apps/games/dobble/lib/dobble/generate.ts:145-166 | a vertical card and the line at infinity share exactly `n² + n` |
| Plane.LinesMeetOnce | apps/games/dobble/lib/dobble/generate.ts:124-169 | the cards of any two distinct lines share exactly one identifier (prime `n`) |
| Plane.PlacedIds | apps/games/dobble/lib/dobble/generate.ts:94-108 | placement never changes a card's identifiers |
| Plane.GeneratedIds | apps/games/dobble/lib/dobble/generate.ts:126-169 | card `i` of a generated deck carries the identifiers of line `LineAt(n, i)` |
| Plane.DeckOrder | apps/games/dobble/lib/dobble/generate.ts:126-169 | the card of each line sits at the line's push position (`m·n + c`, `n² + k`, `n² + n`) |
| Plane.CardContents | apps/games/dobble/lib/dobble/generate.ts:126-166 | position by position: `((m·x + c) mod n)·n + x` then `n² + m`; `y·n + k` then `n² + n`; `n² + m` then `n² + n` |
| Plane.GeneratedCardShape | apps/games/dobble/lib/dobble/generate.ts:124-169 | every generated card has `n + 1` distinct identifiers in `[0, n² + n]` |
| Plane.GeneratedCardsShareOne | apps/games/dobble/lib/dobble/generate.ts:124-169 | any two distinct cards of a generated deck share exactly one identifier |
| Plane.LayoutSeparation | apps/games/dobble/lib/dobble/generate.ts:26-38 | on every card, each symbol sits at the centre or at least 22 away from every symbol placed before it |
| Util.DedupFrom | apps/games/dobble/lib/dobble/util.ts:7 | insertion into a set: the result holds exactly the elements not already seen, with no repeats |
| Util.Dedup | apps/games/dobble/lib/dobble/util.ts:7 | `new Set(ids)` holds exactly the identifiers of the card, with no repeats |
| Util.FirstIn | apps/games/dobble/lib/dobble/util.ts:10-15 | `None` exactly when no element is in `b`; otherwise an element in `b` with no earlier element in `b` |
| Util.FirstInDedupFrom | apps/games/dobble/lib/dobble/util.ts:7-14 | scanning the set in insertion order finds the same element as scanning the card in order |
| Util.FirstInDedup | apps/games/dobble/lib/dobble/util.ts:7-14 | the first common element of the set of A equals that of A's sequence |
| Util.IdSetSize | apps/games/dobble/lib/dobble/util.ts:8 | the set of a card's identifiers holds exactly what its insertion-order iteration yields, and its size is the number of distinct identifiers on the card |
| Util.FindCommonSymbol | apps/games/dobble/lib/dobble/util.ts:3-16 | a result is on both cards; `None` exactly when the cards share nothing; the result is the first identifier of A, in A's order, that B holds |
| Util.OnlyIdsMatter | apps/games/dobble/lib/dobble/util.ts:7-8 | cards with the same identifiers give the same result, whatever their positions |
| Util.SymmetricWhenUnique | apps/games/dobble/lib/dobble/util.ts:3-16 | when two cards share exactly one identifier the result is that identifier in either order |
| Util.GeneratedCardsMatch | apps/games/dobble/lib/dobble/util.ts:3-16 | for two distinct cards of a generated deck the result is never `None` and is their one shared identifier |
| Game.StartGame | apps/games/dobble/app/page.tsx:26-46 | a deck of at least two cards: user gets card 0, opponent card 1, pile the rest, started, not over, start time now, elapsed 0; an error or a shorter deck changes nothing |
| Game.Match | apps/games/dobble/app/page.tsx:51 | there is no match exactly when the two active cards share nothing |
| Game.HandleSymbolClick | apps/games/dobble/app/page.tsx:48-77 | inactive game (the guard `Active` of line 49: not started, over, or a card missing): no change; wrong click: only the shake flag is set; correct click with a pile: user takes the opponent's card, opponent draws the pile's head, nothing else changes; correct click on an empty pile: over, not started, elapsed measured from a truthy start time |
| Game.CorrectStep | apps/games/dobble/app/page.tsx:53-66 | with cards `k`, `k + 1` on the table, a correct click puts `k + 1`, `k + 2` on the table, or ends the game on the last card |
| Game.WrongClick | apps/games/dobble/app/page.tsx:67-76 | a wrong click keeps both cards and the pile |
| Game.InactiveIsFinal | apps/games/dobble/app/page.tsx:49 | before start, after the end, or with a card missing, no sequence of clicks changes the state |
| Game.RunDeals | apps/games/dobble/app/page.tsx:53-58 | after `k ≤ p` correct clicks from a deal, cards `k` and `k + 1` are on the table and the pile has lost exactly `k` cards from its front |
| Game.GameEndsAfterPilePlusOne | apps/games/dobble/app/page.tsx:55-66 | from a deal with pile `p`, the game is running after every `k ≤ p` correct clicks and over after exactly `p + 1`, with elapsed `now − start` |
| Game.ThirtyOneCardGame | apps/games/dobble/app/page.tsx:55-66 | a 31-card deal is still running with an empty pile after 29 correct clicks and is over after 30 |
| Game.RearrangeDealsEvery | apps/games/dobble/app/page.tsx:30 | a shuffle by a permutation has as many cards as the deck, and every card of the deck is dealt |
| Game.DeckHasTwoCards | apps/games/dobble/app/page.tsx:32 | a generated deck always has at least two cards |
| Game.ShuffledChain | apps/games/dobble/app/page.tsx:30 | neighbours in any shuffle of a generated deck share an identifier |
| Game.PlaysToEnd | apps/games/dobble/app/page.tsx:55-66 | a deal whose neighbours match is over after one correct click per card beyond the first |
| Game.ShuffledDeckPlays | apps/games/dobble/app/page.tsx:26-66 | any shuffle of a generated deck deals, always has a match, and ends after `n² + n` correct clicks |
| TimeFormat.NatToString | apps/games/dobble/app/page.tsx:102 | the decimal numeral is non-empty, all digits, without a leading zero |
| TimeFormat.ParseNatToString | apps/games/dobble/app/page.tsx:102 | reading the numeral back gives the number |
| TimeFormat.IntToStringReadsBack | apps/games/dobble/app/page.tsx:102 | the printed integer reads back: its digits parse to the value, with one leading `-` and no leading zero for negative values |
| TimeFormat.FormatTime | apps/games/dobble/app/page.tsx:99-103 | for `ms ≥ 0`: the numeral of `⌊ms/1000⌋`, a point, and exactly two digits of `⌊(ms mod 1000)/10⌋` |
| TimeFormat.TwoDigits | apps/games/dobble/app/page.tsx:101-102 | the padding `0` and the truncated tens together are exactly the two hundredths digits |
| TimeFormat.ParseTwoDigits | apps/games/dobble/app/page.tsx:102 | the two hundredths digits read back as the hundredths |
| TimeFormat.FormatTimeReadsBack | apps/games/dobble/app/page.tsx:99-103 | the text before the point reads back as the seconds and the two digits after it as the hundredths |
| Router.Split | libs/core/router-dispatcher/src/index.ts:4 | splitting gives at least one piece and no piece holds the separator |
| Router.JoinSplit | libs/core/router-dispatcher/src/index.ts:4 | joining the pieces with the separator gives back the pathname |
| Router.SplitJoin | libs/core/router-dispatcher/src/index.ts:11 | splitting the join of non-empty lists of separator-free pieces gives the pieces back |
| Router.SplitAround | libs/core/router-dispatcher/src/index.ts:4 | a separator after a separator-free prefix makes that prefix the first piece |
| Router.SplitWithout | libs/core/router-dispatcher/src/index.ts:4 | a string without the separator is one piece |
| Router.NonEmpty | libs/core/router-dispatcher/src/index.ts:4 | the filter keeps exactly the non-empty pieces: a string is in the result if and only if it is a non-empty piece of the input |
| Router.NonEmptySingle | libs/core/router-dispatcher/src/index.ts:4 | on one piece the filter keeps it exactly when it is non-empty; with Router.NonEmptyAppend this fixes the filter, order included |
| Router.NonEmptyAppend | libs/core/router-dispatcher/src/index.ts:4 | the filter distributes over concatenation |
| Router.Segments | libs/core/router-dispatcher/src/index.ts:4 | every path segment is non-empty and free of `/` |
| Router.SegmentsEmpty | libs/core/router-dispatcher/src/index.ts:4 | the empty path has no segments |
| Router.SegmentsSlash | libs/core/router-dispatcher/src/index.ts:4 | a leading `/` adds no segment |
| Router.SegmentsCons | libs/core/router-dispatcher/src/index.ts:4 | a segment followed by `/` is the first segment |
| Router.SegmentsOfSegment | libs/core/router-dispatcher/src/index.ts:4 | a lone segment is the only segment |
| Router.SegmentsOfJoin | libs/core/router-dispatcher/src/index.ts:4 | joining well-formed segments with `/`, with or without a leading `/`, and splitting again gives them back |
| Router.DeployIdOfPath | libs/core/router-dispatcher/src/index.ts:4-6 | for `/d/…` and `/d` the deployment is the segment `d`, and for the root path `/` it is `core/home` |
| Router.EnvironmentOfHost | libs/core/router-dispatcher/src/index.ts:7-9 | a host starting with `staging` is served from `staging`, a host whose first letter already differs from `production`, and the environment is one path segment |
| Router.AssetPath | libs/core/router-dispatcher/src/index.ts:11-15 | the asset path always contains a `.` |
| Router.AssetPathCases | libs/core/router-dispatcher/src/index.ts:11-15 | empty rest: `index.html`; rest without a `.`: rest + `/index.html`; otherwise the rest unchanged |
| Router.JoinAppend | libs/core/router-dispatcher/src/index.ts:11 | joining two non-empty lists puts exactly one `/` between their joins |
| Router.DeployIsJoin | libs/core/router-dispatcher/src/index.ts:6 | the deployment id is the join of its segments (`core`, `home` by default) |
| Router.AssetIsJoin | libs/core/router-dispatcher/src/index.ts:11-15 | the asset path is the join of the rest segments and, unless they name a file, `index.html` |
| Router.KeyTailSegments | libs/core/router-dispatcher/src/index.ts:6-15 | every segment after the environment in a key is well formed |
| Router.KeyIsJoin | libs/core/router-dispatcher/src/index.ts:6-16 | `deployId/assetPath` is the join of the deployment segments, the rest segments and the optional `index.html` |
| Router.R2Key | libs/core/router-dispatcher/src/index.ts:3-16 | the key has no empty component, and read back as a path it is the environment, the deployment's segments, the rest of the request's segments and `index.html` when the request named no file |
| Router.SegmentIsPath | libs/core/router-dispatcher/src/index.ts:13 | a segment is a path without empty components |
| Router.ConcatPaths | libs/core/router-dispatcher/src/index.ts:14-16 | two paths without empty components joined by one `/` have none either |
| Router.JoinIsPath | libs/core/router-dispatcher/src/index.ts:11 | well-formed segments joined by `/` form a path without empty components |
| Router.KeyWellFormed | libs/core/router-dispatcher/src/index.ts:13-16 | for a one-segment environment and well-formed request segments, `environment/deployId/assetPath` never contains `//` and neither starts nor ends with `/` |
| Router.KeySegments | libs/core/router-dispatcher/src/index.ts:4-16 | for a one-segment environment and well-formed request segments, `environment/deployId/assetPath` read back as a path has as segments the environment, the deployment's segments, the rest of the request's segments, and `index.html` when the request named no file |

## Left out

- Randomness. `Math.random` and the polar sampling of candidates (`generate.ts:18-23`) are replaced by the parameter `sample(card, symbol, attempt)`. The game takes the shuffled deck as an input, because `sort` with a random comparator (`page.tsx:30`) has no fixed result. `Game.ShuffledDeckPlays` covers every order given as a permutation.
- Rotation, scale and the `toFixed` scale string (`generate.ts:52-75`) are not modelled. The `x` and `y` that `generateVisuals` computes are discarded by the source itself (`generate.ts:99-107`).
- Floating point. Positions are exact reals, and the distance test compares squared distances, which is equivalent to the `Math.sqrt` comparison over the reals. `isPrime` tests `i·i ≤ num` for `i ≤ Math.sqrt(num)`; the two agree on integers. A non-integer `n` is out of scope.
- Generate.GenerateDobbleDeck: thrown errors are modelled as `Failure` values; the message texts are not modelled.
- Prime-power orders and Galois-field arithmetic are not modelled, because the source rejects them.
- Timers and effects (`page.tsx:20-24, 68-97`) are not modelled:
  - the 100 ms clock interval;
  - the shake timeout that clears the flag;
  - `useEffect` clean-up.

  `Date.now()` is the `now` parameter of each transition.
- The slider that sets `n`, and all rendering, are not modelled. `Game.StartGame` receives the deck generated for the chosen `n`.
- TimeFormat.FormatTime: models integer milliseconds only. JavaScript's rounding of `ms / 1000` for values beyond 2^53, and its exponent notation above 10^21, are not modelled.
- Router I/O (`index.ts:3, 18-27`) is not modelled: `URL` parsing, the R2 bucket lookup, the 404 response and the headers. The pathname and hostname are inputs as strings.
- The game keeps the source's separate started and over flags rather than a single state variant.
