# Worldle: turn state machine and compass feedback

A model of the logic behind a small Worldle clone. The player guesses countries
and gets two pieces of feedback for each guess: the distance to a hidden answer
country, and an arrow that points toward it. A game has at most six guesses.

- `countries.dfy` (module `Countries`): a country is an object with constant
  `code`, `name`, `latitude` and `longitude`. The page compares countries by
  reference (`===`), and a Dafny class keeps that identity. The dataset is
  assumed to give every country its own code (`UniqueCodes`). Under that
  assumption, comparing references and comparing codes give the same answer.
- `geo.dfy` (module `Geo`): the non-trigonometric part of `src/utils/geo.ts`.
  It covers degree/radian conversion, the antimeridian wrap of the longitude
  difference, the `(x + 360) % 360` normalisation, `Math.round`, and the
  nine-entry arrow table behind `arrowToAnswer`. `Math.PI` is approximated by
  the real 3.141592653589793, the shortest decimal that reads back as that
  double. `atan2`, the Mercator `log(tan(..))` term and the haversine
  distance are function-valued fields of a `Trig` record. Only one thing is
  assumed about them: `atan2` returns a value in [-PI, PI].
- `game.dfy` (module `Game`): the page state of `src/pages/index.tsx`. The class
  `Game` has the three state fields `guessed`, `selected` and `gameState`. Its
  methods are:
  - `HandleGuess`: the guess handler.
  - `OnGuessedChanged`: the effect that runs when `guessed` changes.
  - `Select`: the picker's change handler. The picker is disabled unless the
    game is PLAYING.
  - `PressButton`: the button. While PLAYING it submits the guess. Otherwise it
    becomes "Next Game".

  `Valid()` holds at every step, including between the handler and the effect.
  It says that:
  - there are at most six guesses;
  - no country appears twice;
  - every entry holds its country's distance and arrow;
  - every guess before the last one is wrong;
  - a terminal phase is the phase derived from the list.

  `Settled()` adds that the phase equals the derived `Phase(guessed, answer)`.

  The pure functions are `Phase` (how the phase follows from the list), `Find`
  (`Array.prototype.find`) and `FilterCountries` (the picker's name filter).

Choices the model makes about the code:
- Duplicate guesses are detected by reference (src/pages/index.tsx:31).
  `FindByCode` proves that this equals a test on codes when the listed
  countries have unique codes.
- The answer arrives as a page prop (src/pages/index.tsx:21-23, 104-108). It is
  compared only by `code` (src/utils/geo.ts:8, src/pages/index.tsx:45), so the
  model does not require it to be one of the list's objects.
- The wrap only applies when |delta| > PI (src/utils/geo.ts:24), so a
  difference of exactly -PI stays -PI. The proved range is [-PI, PI].
- After a game ends, the guess handler is not reachable: the button reloads the
  page instead (src/pages/index.tsx:89-95). `HandleGuess` therefore requires
  PLAYING, and `PressButton` models the gate.
- The arrow table has nine entries, and the last repeats north
  (src/utils/geo.ts:11). `TableIsModEight` proves that this equals reading the
  rounded index modulo 8.

## Model

| member | source | states |
|---|---|---|
| `Geo.Rad` | src/utils/geo.ts:3 | a degree value in [-180, 180] becomes a radian value in [-PI, PI] |
| `Geo.Deg` | src/utils/geo.ts:4 | converting radians to degrees and back with `rad` gives the original radians; a radian value in [-PI, PI] becomes a degree value in [-180, 180] |
| `Geo.DegOfRad` | src/utils/geo.ts:3-4 | converting degrees to radians and back with `deg` gives the original degrees |
| `Geo.WrapLongitude` | src/utils/geo.ts:24-30 | the wrapped difference equals the input or differs from it by ±2·PI; an input in [-PI, PI] is unchanged; an input in [-2·PI, 2·PI] ends up in [-PI, PI] |
| `Geo.Mod360` | src/utils/geo.ts:31 | JavaScript `% 360` truncates toward zero, so the result has the dividend's sign: a non-negative dividend gives [0, 360), a negative one gives (-360, 0]; for every dividend, the result is the dividend minus an integer multiple of 360; it is the identity on [0, 360) and subtracts 360 on [360, 720) |
| `Geo.NormalizeDegrees` | src/utils/geo.ts:31 | `(x + 360) % 360` lies in [0, 360) for every x ≥ -360 (so for every atan2 result in [-180, 180]); it adds 360 to a negative x and leaves x in [0, 360) unchanged |
| `Geo.AngleOf` | src/utils/geo.ts:18-32 | the bearing toward the second country lies in [0, 360) for every atan2 that returns values in [-PI, PI] |
| `Geo.Angle` | src/utils/geo.ts:18-32 | the version that reassigns `deltaLongitude` inside the wrap computes the same bearing as `AngleOf`, which lies in [0, 360) |
| `Geo.Round` | src/utils/geo.ts:10 | `Math.round` returns the integer n with n - 0.5 ≤ x < n + 0.5, so halves round up |
| `Geo.Index` | src/utils/geo.ts:11 | each of the eight directions sits at a position below 8 in the table, in clockwise order from north |
| `Geo.CompassOf` | src/utils/geo.ts:10-13 | for every bearing in [0, 360) the table index `Math.round(angle/45)` is in range, and the entry's 45° sector (centred on 45·index, north's sector running past 337.5) contains the bearing |
| `Geo.SectorUnique` | src/utils/geo.ts:10-13 | the sectors do not overlap: a bearing in the sector of d is mapped to d, so with `CompassOf` the lookup picks d exactly when the bearing is in d's sector |
| `Geo.NearFullTurnIsNorth` | src/utils/geo.ts:11-13 | a bearing of 337.5° or more rounds to index 8, and that entry is north, as entry 0 is |
| `Geo.TableIsModEight` | src/utils/geo.ts:10-13 | the 9-entry lookup equals reading the first eight entries at the rounded index modulo 8 |
| `Geo.ArrowToAnswer` | src/utils/geo.ts:6-16 | the result is the celebration sentinel exactly when the two codes are equal; otherwise it is a heading whose sector contains the bearing to the answer |
| `Countries.SameCodeSameCountry` | src/pages/index.tsx:31 | in a list with unique codes, two listed countries are the same object exactly when their codes are equal |
| `Game.Score` | src/pages/index.tsx:35-37 | the appended entry holds the guessed country; its arrow is the celebration exactly when the country has the answer's code |
| `Game.Find` | src/pages/index.tsx:31 | `find` returns nothing exactly when no guess holds the given country (reference comparison); anything it returns is a guess of that country taken from the list |
| `Game.Phase` | src/pages/index.tsx:43-53 | WON exactly when the list is non-empty and the last guess has the answer's code, even as the sixth guess; LOST exactly when there are six guesses and the last is wrong; PLAYING otherwise, including for the empty list |
| `Game.AcceptKeepsHistory` | src/pages/index.tsx:29-38 | appending the scored entry of a listed, not yet guessed country while the phase is PLAYING keeps the list invariant: at most six entries, each scored, no country twice, no correct guess before the last |
| `Game.PlayingLeavesRoom` | src/pages/index.tsx:49-53 | a list of at most six guesses whose derived phase is PLAYING has fewer than six, so one more guess keeps the bound |
| `Game.WonIffCelebration` | src/pages/index.tsx:35-47 | when every entry is scored against the answer, the game is won exactly when the last arrow is the celebration |
| `Game.FindByCode` | src/pages/index.tsx:31 | for countries from a list with unique codes, the reference check rejects a selection exactly when a guess with the same code exists |
| `Game.GuessedCodesDistinct` | src/pages/index.tsx:31-37 | if the guesses hold distinct countries of the list, no two guesses share a code |
| `Game.Matching` | src/pages/index.tsx:148-150 | `filter` keeps only countries whose lower-cased name includes the query, keeps every such country, and keeps them in list order (a subsequence) |
| `Game.MatchingKeepsCount` | src/pages/index.tsx:148-150 | `filter` keeps each matching country as many times as the list holds it |
| `Game.FilterCountries` | src/pages/index.tsx:145-150 | an empty query lists every country unchanged; any other query lists exactly the countries whose lower-cased name includes the lower-cased query, each as many times as the list holds it, in list order |
| `Game.Game.constructor` | src/pages/index.tsx:25-27 | a new page has no guesses, no selection and phase PLAYING, and is settled |
| `Game.Game.Select` | src/pages/index.tsx:153-156 | the picker sets the selection only while PLAYING, because it is disabled otherwise; nothing else changes |
| `Game.Game.HandleGuess` | src/pages/index.tsx:29-38 | with nothing selected, or with the selected country already guessed, `guessed` is unchanged; otherwise exactly one entry (country, distance, arrow toward the answer) is appended after the old ones; `Valid` is kept, including the bound of six |
| `Game.Game.OnGuessedChanged` | src/pages/index.tsx:40-56 | the selection is cleared and the phase becomes the one derived from the list (WON checked before LOST); a list that derives PLAYING leaves the phase as it was |
| `Game.Game.PressButton` | src/pages/index.tsx:87-95 | outside PLAYING the button only asks for a reload and changes nothing; while PLAYING a rejected selection changes nothing, and an accepted one appends its scored entry, clears the selection and settles the phase |
| `Game.LoseAfterSixWrongGuesses` | src/pages/index.tsx:29-56 | six distinct wrong countries, each selected and submitted in turn, leave the game LOST with six guesses; a seventh press is a reload |
| `Game.WinOnFirstGuess` | src/pages/index.tsx:29-56 | submitting first the listed country with the answer's code leaves the game WON with one guess; a further press is a reload |

## Left out

- The haversine body of `distance` (src/utils/geo.ts:35-46) is not modelled. The distance is `Trig.distance`, a function the model receives. Dafny has no trigonometry, and nothing in the game depends on the value.
- The Mercator `log(tan(..))` latitude term (src/utils/geo.ts:20-23) and `Math.atan2` are not computed. They are `Trig.lnTanRatio` and `Trig.atan2`, and the only assumption is that atan2 returns a value in [-PI, PI].
- IEEE double rounding is not modelled. All arithmetic is on exact reals, and `Math.PI` is approximated by the real 3.141592653589793.
- The closeness percentage and the rounded kilometres of the guess display (src/pages/index.tsx:125, 131) are display-only float arithmetic and are not modelled. `MAX_DISTANCE` is declared as a constant only.
- React rendering and hook scheduling are modelled as sequential calls. The effect runs after a handler call that changed `guessed`, and a new page starts in the state left by the effect's run on mount.
- `Head`, `CountryImage`, the asset path, the toasts and the input focus are UI with no state of their own, and are not modelled.
- `window.location.reload()` is UI. `PressButton` reports it as `reload` and does not model the new game it starts.
- `getServerSideProps`, `getRandomCountry` and the `COUNTRIES` dataset are not modelled. src/utils/countries is not part of this model. The country list and the answer are constructor parameters.
- `toLowerCase` is an abstract total function `lower` on strings, so no Unicode case mapping is modelled.
- Arrows are an enumeration, a celebration value or one of eight headings. The emoji strings the source returns are not modelled.
- Game.Find: does not state that the returned guess is the first match in the list, only that it is some guess of the given country. The handler uses only whether a match exists.
