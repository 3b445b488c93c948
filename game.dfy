/** The turn state machine of the game page: the list of guesses, the selected
    country and the phase, with the guess handler, the effect that re-derives the
    phase whenever the list changes, the PLAYING-gated input, and the name filter
    of the country picker. */
module Game {
  import opened Countries
  import opened Geo

  datatype Option<T> = None | Some(value: T)

  /** One submitted guess with its feedback. */
  datatype Guess = Guess(country: Country, distance: real, arrow: Arrow)

  datatype GameState = Playing | Won | Lost

  /** Number of guesses after which a game without a correct guess is lost. */
  const MaxGuesses: nat := 6

  /** The entry recorded for guessing `c` when the answer is `answer`. */
  function Score(trig: Trig, c: Country, answer: Country): (g: Guess)
    requires trig.Valid()
    ensures g.country == c
    ensures g.arrow == Celebration <==> c.code == answer.code
  {
    Guess(c, trig.distance(c, answer), ArrowToAnswer(trig, c, answer))
  }

  function Last(guessed: seq<Guess>): Guess
    requires guessed != []
  {
    guessed[|guessed| - 1]
  }

  /** `guessed.find((guess) => guess.country === c)`: the first guess of `c`, if any. */
  function Find(guessed: seq<Guess>, c: Country): (r: Option<Guess>)
    ensures r.None? <==> forall i :: 0 <= i < |guessed| ==> guessed[i].country != c
    ensures r.Some? ==> r.value in guessed && r.value.country == c
  {
    if guessed == [] then None
    else if guessed[0].country == c then Some(guessed[0])
    else Find(guessed[1..], c)
  }

  /** A selection the guess handler accepts: present and not guessed before. */
  predicate Accepts(guessed: seq<Guess>, selected: Option<Country>) {
    selected.Some? && Find(guessed, selected.value).None?
  }

  /** The phase the effect derives from the list: won as soon as the last guess has
      the answer's code (even as the sixth), lost after six guesses otherwise. */
  function Phase(guessed: seq<Guess>, answer: Country): (p: GameState)
    ensures p == Won <==> guessed != [] && Last(guessed).country.code == answer.code
    ensures p == Lost <==> |guessed| == MaxGuesses && Last(guessed).country.code != answer.code
  {
    if |guessed| == 0 then Playing
    else if Last(guessed).country.code == answer.code then Won
    else if |guessed| == MaxGuesses then Lost
    else Playing
  }

  /** While the game is still being played there is room for another guess. */
  lemma PlayingLeavesRoom(guessed: seq<Guess>, answer: Country)
    requires |guessed| <= MaxGuesses
    requires Phase(guessed, answer) == Playing
    ensures |guessed| < MaxGuesses
  {
  }

  /** Every entry of the list is the score of its country against the answer. */
  ghost predicate Scored(trig: Trig, guessed: seq<Guess>, answer: Country)
    requires trig.Valid()
  {
    forall i :: 0 <= i < |guessed| ==> guessed[i] == Score(trig, guessed[i].country, answer)
  }

  /** What the list of guesses keeps throughout a game: at most six entries, each
      the score of a listed country, no country twice, and no correct guess
      before the last entry. */
  ghost predicate History(countries: seq<Country>, trig: Trig, answer: Country, guessed: seq<Guess>)
    requires trig.Valid()
  {
    && |guessed| <= MaxGuesses
    && Scored(trig, guessed, answer)
    && (forall i :: 0 <= i < |guessed| ==> guessed[i].country in countries)
    && (forall i, j :: 0 <= i < j < |guessed| ==> guessed[i].country != guessed[j].country)
    && (forall i :: 0 <= i < |guessed| - 1 ==> guessed[i].country.code != answer.code)
  }

  /** Appending the score of a listed, not yet guessed country while the derived
      phase is PLAYING keeps the history invariant. */
  lemma AcceptKeepsHistory(countries: seq<Country>, trig: Trig, answer: Country, guessed: seq<Guess>, c: Country)
    requires trig.Valid() && History(countries, trig, answer, guessed)
    requires Phase(guessed, answer) == Playing
    requires c in countries && Find(guessed, c).None?
    ensures History(countries, trig, answer, guessed + [Score(trig, c, answer)])
  {
    PlayingLeavesRoom(guessed, answer);
    var g := Score(trig, c, answer);
    AppendScored(trig, guessed, answer, g);
    AppendDistinct(guessed, g);
    AppendAfterWrong(guessed, answer, g);
    assert forall i :: 0 <= i < |guessed| + 1 ==> (guessed + [g])[i].country in countries by {
      assert forall i :: 0 <= i < |guessed| ==> (guessed + [g])[i] == guessed[i];
    }
  }

  lemma AppendScored(trig: Trig, guessed: seq<Guess>, answer: Country, g: Guess)
    requires trig.Valid() && Scored(trig, guessed, answer)
    requires g == Score(trig, g.country, answer)
    ensures Scored(trig, guessed + [g], answer)
  {
    assert forall i :: 0 <= i < |guessed| ==> (guessed + [g])[i] == guessed[i];
  }

  lemma AppendDistinct(guessed: seq<Guess>, g: Guess)
    requires forall i, j :: 0 <= i < j < |guessed| ==> guessed[i].country != guessed[j].country
    requires Find(guessed, g.country).None?
    ensures forall i, j :: 0 <= i < j < |guessed + [g]| ==> (guessed + [g])[i].country != (guessed + [g])[j].country
  {
    assert forall i :: 0 <= i < |guessed| ==> (guessed + [g])[i] == guessed[i];
  }

  lemma AppendAfterWrong(guessed: seq<Guess>, answer: Country, g: Guess)
    requires forall i :: 0 <= i < |guessed| - 1 ==> guessed[i].country.code != answer.code
    requires Phase(guessed, answer) == Playing
    ensures forall i :: 0 <= i < |guessed + [g]| - 1 ==> (guessed + [g])[i].country.code != answer.code
  {
    assert forall i :: 0 <= i < |guessed| ==> (guessed + [g])[i] == guessed[i];
    if guessed != [] { assert Last(guessed).country.code != answer.code; }
  }

  /** On a scored list, the game is won exactly when the last arrow is the celebration. */
  lemma WonIffCelebration(trig: Trig, guessed: seq<Guess>, answer: Country)
    requires trig.Valid() && Scored(trig, guessed, answer)
    ensures Phase(guessed, answer) == Won <==> guessed != [] && Last(guessed).arrow == Celebration
  {
    if guessed != [] {
      assert Last(guessed) == Score(trig, Last(guessed).country, answer);
    }
  }

  /** The handler's duplicate test compares references; when the guessed and the
      selected countries come from a list with unique codes, it rejects exactly the
      selections whose code has been guessed. */
  lemma FindByCode(countries: seq<Country>, guessed: seq<Guess>, c: Country)
    requires UniqueCodes(countries) && c in countries
    requires forall i :: 0 <= i < |guessed| ==> guessed[i].country in countries
    ensures Find(guessed, c).None? <==> forall i :: 0 <= i < |guessed| ==> guessed[i].country.code != c.code
  {
    forall i | 0 <= i < |guessed|
      ensures guessed[i].country == c <==> guessed[i].country.code == c.code
    {
      SameCodeSameCountry(countries, guessed[i].country, c);
    }
  }

  /** No two guesses of a list of distinct countries from the dataset share a code. */
  lemma GuessedCodesDistinct(countries: seq<Country>, guessed: seq<Guess>)
    requires UniqueCodes(countries)
    requires forall i :: 0 <= i < |guessed| ==> guessed[i].country in countries
    requires forall i, j :: 0 <= i < j < |guessed| ==> guessed[i].country != guessed[j].country
    ensures forall i, j :: 0 <= i < j < |guessed| ==> guessed[i].country.code != guessed[j].country.code
  {
    forall i, j | 0 <= i < j < |guessed|
      ensures guessed[i].country.code != guessed[j].country.code
    {
      SameCodeSameCountry(countries, guessed[i].country, guessed[j].country);
    }
  }

  /** JavaScript's `s.includes(t)`: `t` is a prefix of `s` or of one of its suffixes. */
  predicate Includes(s: string, t: string) {
    |t| <= |s| && (s[..|t|] == t || Includes(s[1..], t))
  }

  /** `a` is `b` with some elements left out, the rest kept in order. */
  ghost predicate IsSubsequence<T>(a: seq<T>, b: seq<T>) {
    if a == [] then true
    else if b == [] then false
    else if a[0] == b[0] then IsSubsequence(a[1..], b[1..])
    else IsSubsequence(a, b[1..])
  }

  /** `countries.filter((c) => lower(c.name).includes(q))`. */
  function Matching(countries: seq<Country>, q: string, lower: string -> string): (r: seq<Country>)
    ensures forall i :: 0 <= i < |r| ==> r[i] in countries && Includes(lower(r[i].name), q)
    ensures forall i :: 0 <= i < |countries| && Includes(lower(countries[i].name), q) ==> countries[i] in r
    ensures IsSubsequence(r, countries)
  {
    if countries == [] then []
    else
      var rest := Matching(countries[1..], q, lower);
      if Includes(lower(countries[0].name), q) then [countries[0]] + rest
      else
        assert countries[0] !in rest;
        rest
  }

  /** `filter` keeps every matching country as often as the list holds it. */
  lemma {:induction false} MatchingKeepsCount(countries: seq<Country>, q: string, lower: string -> string)
    ensures forall i :: 0 <= i < |countries| && Includes(lower(countries[i].name), q) ==>
      multiset(Matching(countries, q, lower))[countries[i]] == multiset(countries)[countries[i]]
  {
    if countries != [] {
      var head, tail := countries[0], countries[1..];
      var rest := Matching(tail, q, lower);
      MatchingKeepsCount(tail, q, lower);
      assert countries == [head] + tail;
      forall i | 0 <= i < |countries| && Includes(lower(countries[i].name), q)
        ensures multiset(Matching(countries, q, lower))[countries[i]] == multiset(countries)[countries[i]]
      {
        var x := countries[i];
        if x in tail {
          var j :| 0 <= j < |tail| && tail[j] == x;
          assert multiset(rest)[x] == multiset(tail)[x];
        } else {
          assert x !in rest;
          assert x == head;
        }
      }
    }
  }

  /** The picker's option list: every country for an empty query, otherwise those
      whose lower-cased name contains the lower-cased query, in list order. */
  function FilterCountries(countries: seq<Country>, query: string, lower: string -> string): (r: seq<Country>)
    ensures query == "" ==> r == countries
    ensures query != "" ==> forall i :: 0 <= i < |r| ==> Includes(lower(r[i].name), lower(query))
    ensures query != "" ==>
      forall i :: 0 <= i < |countries| && Includes(lower(countries[i].name), lower(query)) ==> countries[i] in r
    ensures query != "" ==>
      forall i :: 0 <= i < |countries| && Includes(lower(countries[i].name), lower(query)) ==>
        multiset(r)[countries[i]] == multiset(countries)[countries[i]]
    ensures IsSubsequence(r, countries)
  {
    if query == "" then
      SubsequenceOfItself(countries);
      countries
    else
      MatchingKeepsCount(countries, lower(query), lower);
      Matching(countries, lower(query), lower)
  }

  lemma {:induction false} SubsequenceOfItself<T>(s: seq<T>)
    ensures IsSubsequence(s, s)
  {
    if s != [] { SubsequenceOfItself(s[1..]); }
  }

  /** The state of one game page. */
  class Game {
    const countries: seq<Country>
    const answer: Country
    const trig: Trig
    var guessed: seq<Guess>
    var selected: Option<Country>
    var gameState: GameState

    /** What holds at every point, including between the guess handler and the
        effect that follows it. */
    ghost predicate Valid()
      reads this
    {
      && UniqueCodes(countries)
      && trig.Valid()
      && (selected.Some? ==> selected.value in countries)
      && History(countries, trig, answer, guessed)
      && (gameState != Playing ==> gameState == Phase(guessed, answer))
    }

    /** What holds once the effect has run: the phase is the one derived from the list. */
    ghost predicate Settled()
      reads this
    {
      Valid() && gameState == Phase(guessed, answer)
    }

    constructor (countries: seq<Country>, answer: Country, trig: Trig)
      requires UniqueCodes(countries) && trig.Valid()
      ensures Settled()
      ensures this.countries == countries && this.answer == answer && this.trig == trig
      ensures guessed == [] && selected == None && gameState == Playing
    {
      this.countries := countries;
      this.answer := answer;
      this.trig := trig;
      guessed := [];
      selected := None;
      gameState := Playing;
    }

    /** The picker's change handler; the picker is disabled unless the game is PLAYING. */
    method Select(c: Option<Country>)
      requires Valid()
      requires c.Some? ==> c.value in countries
      modifies this`selected
      ensures Valid()
      ensures selected == if gameState == Playing then c else old(selected)
    {
      if gameState == Playing {
        selected := c;
      }
    }

    /** `handleGuess`: appends the scored selection unless nothing is selected or the
        selected country has been guessed already; `changed` reports the append. */
    method HandleGuess() returns (changed: bool)
      requires Settled() && gameState == Playing
      modifies this`guessed
      ensures Valid()
      ensures changed == Accepts(old(guessed), selected)
      ensures changed ==> guessed == old(guessed) + [Score(trig, selected.value, answer)]
      ensures !changed ==> guessed == old(guessed)
    {
      if selected.None? || Find(guessed, selected.value).Some? {
        return false;
      }
      var c := selected.value;
      AcceptKeepsHistory(countries, trig, answer, guessed, c);
      var dist := trig.distance(c, answer);
      var arrow := ArrowToAnswer(trig, c, answer);
      guessed := guessed + [Guess(c, dist, arrow)];
      changed := true;
    }

    /** The effect on `guessed`: clears the selection, then sets WON when the last
        guess has the answer's code, else LOST when six guesses have been made. */
    method OnGuessedChanged()
      requires Valid()
      modifies this`selected, this`gameState
      ensures Settled()
      ensures selected == None
      ensures gameState == Phase(guessed, answer)
      ensures Phase(guessed, answer) == Playing ==> gameState == old(gameState)
    {
      selected := None;
      if |guessed| == 0 {
        return;
      } else if Last(guessed).country.code == answer.code {
        gameState := Won;
        return;
      } else if |guessed| == MaxGuesses {
        gameState := Lost;
        return;
      }
    }

    /** The button: while PLAYING it runs the guess handler (and the effect, when the
        list changed); otherwise it reloads the page for a new game, which this model
        reports as `reload` without changing anything. */
    method PressButton() returns (reload: bool)
      requires Settled()
      modifies this`guessed, this`selected, this`gameState
      ensures Settled()
      ensures reload <==> old(gameState) != Playing
      ensures reload || !Accepts(old(guessed), old(selected)) ==>
        guessed == old(guessed) && selected == old(selected) && gameState == old(gameState)
      ensures !reload && Accepts(old(guessed), old(selected)) ==>
        && guessed == old(guessed) + [Score(trig, old(selected).value, answer)]
        && selected == None
    {
      if gameState != Playing {
        return true;
      }
      reload := false;
      var changed := HandleGuess();
      if changed {
        OnGuessedChanged();
      }
    }
  }

  /** A game whose first guess is the listed country with the answer's code is won
      after that one guess, and the button then offers a new game instead of
      another guess. */
  method WinOnFirstGuess(countries: seq<Country>, answer: Country, trig: Trig, pick: Country)
    returns (state: GameState, count: nat, reload: bool)
    requires UniqueCodes(countries) && trig.Valid()
    requires pick in countries && pick.code == answer.code
    ensures state == Won && count == 1 && reload
  {
    var g := new Game(countries, answer, trig);
    g.Select(Some(pick));
    reload := g.PressButton();
    assert !reload && g.guessed == [Score(trig, pick, answer)];
    reload := g.PressButton();
    state, count := g.gameState, |g.guessed|;
  }

  /** A game given six distinct wrong countries is lost after the sixth, and a
      further press adds no guess. */
  method LoseAfterSixWrongGuesses(countries: seq<Country>, answer: Country, trig: Trig, wrong: seq<Country>)
    returns (state: GameState, count: nat, reload: bool)
    requires UniqueCodes(countries) && trig.Valid()
    requires |wrong| == MaxGuesses
    requires forall i :: 0 <= i < |wrong| ==> wrong[i] in countries && wrong[i].code != answer.code
    requires forall i, j :: 0 <= i < j < |wrong| ==> wrong[i] != wrong[j]
    ensures state == Lost && count == MaxGuesses && reload
  {
    var g := new Game(countries, answer, trig);
    var k := 0;
    while k < |wrong|
      invariant 0 <= k <= |wrong|
      invariant g.Settled() && g.countries == countries && g.answer == answer && g.trig == trig
      invariant |g.guessed| == k
      invariant forall i :: 0 <= i < k ==> g.guessed[i].country == wrong[i]
      invariant k < MaxGuesses ==> g.gameState == Playing
    {
      g.Select(Some(wrong[k]));
      assert g.selected == Some(wrong[k]);
      assert Accepts(g.guessed, g.selected) by {
        assert forall i :: 0 <= i < k ==> g.guessed[i].country != wrong[k];
      }
      ghost var before := g.guessed;
      var _ := g.PressButton();
      assert g.guessed == before + [Score(trig, wrong[k], answer)];
      assert Last(g.guessed).country == wrong[k];
      k := k + 1;
    }
    reload := g.PressButton();
    state, count := g.gameState, |g.guessed|;
  }
}
