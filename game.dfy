/**
  The game loop of The Oracle's Chronicle (`play_game`).

  The story history starts from a fixed opening and only grows: each chosen
  path appends `"\nPlayer chose to: "` and the chosen description, and the
  next turn is fetched with the new history.  The player's lines are a
  finite sequence of inputs, read one at a time; the text generator is a
  finite sequence of behaviours, the i-th answering the i-th request.  The
  game ends when a turn cannot be fetched, when the player types `quit`,
  when the input runs out, or when the generator has answered every
  request it is given.
*/
module Game {
  import opened Options
  import opened PyDict
  import opened Oracle

  /** The history the story starts from. */
  const Opening: string :=
      "The adventure begins. "
    + "The player character, a seeker of truth, stands before the Whispering Monolith, a massive stone humming with untold energy. "
    + "The air is thick with the scent of ozone and ancient dust."

  /** The input that ends the game. */
  const Quit: string := "quit"

  /** What a chosen path appends to the history, before its description. */
  const ChoseTag: string := "\nPlayer chose to: "

  /** Why the game stopped. */
  datatype EndReason =
    | Unavailable         // the turn could not be fetched (`game_state` is `None`)
    | DeadEnd             // the turn offers no choices
    | PlayerQuit          // the player typed `quit`
    | InputClosed         // the input ran out while waiting for a choice
    | GeneratorExhausted  // every generator behaviour has been used

  /** The final history, the history sent with each generator request, the
      number of inputs read and the reason the game stopped. */
  datatype Ending = Ending(history: string, calls: seq<string>, consumed: nat, reason: EndReason)

  /** The outcome of waiting for the player: a key of the turn and the
      position of the next unread input, `quit` and the position after it,
      or the input running out. */
  datatype Pick = Chosen(key: string, next: nat) | Quitted(next: nat) | Closed

  /** The inner input loop: while `current` is not a key, read the next
      input; `quit` ends the game before it is looked up. */
  function AwaitChoice(choices: map<string, string>, current: string, inputs: seq<string>, pos: nat): (r: Pick)
    requires pos <= |inputs|
    ensures r.Chosen? ==> r.key in choices && pos <= r.next <= |inputs|
    ensures r.Quitted? ==> pos < r.next <= |inputs|
    decreases |inputs| - pos
  {
    if current in choices then Chosen(current, pos)
    else if pos == |inputs| then Closed
    else if inputs[pos] == Quit then Quitted(pos + 1)
    else AwaitChoice(choices, inputs[pos], inputs, pos + 1)
  }

  /** What the wait returns: with `current` already a key, that key and no
      input read; otherwise the first input that is `quit` or a key, with
      `quit` checked first, or closed input when no such input remains. */
  lemma {:induction false} AwaitChoiceSpec(choices: map<string, string>, current: string, inputs: seq<string>, pos: nat)
    requires pos <= |inputs|
    ensures var r := AwaitChoice(choices, current, inputs, pos);
      && (current in choices <==> r == Chosen(current, pos))
      && (r.Chosen? && current !in choices ==> r.next > pos)
      && (r.Chosen? && r.next > pos ==> r.key == inputs[r.next - 1] && r.key != Quit)
      && (r.Quitted? ==> inputs[r.next - 1] == Quit)
      && (r.Closed? ==> forall j | pos <= j < |inputs| :: inputs[j] != Quit && inputs[j] !in choices)
      && (!r.Closed? ==> forall j | pos <= j < r.next - 1 :: inputs[j] != Quit && inputs[j] !in choices)
    decreases |inputs| - pos
  {
    if current !in choices && pos < |inputs| && inputs[pos] != Quit {
      AwaitChoiceSpec(choices, inputs[pos], inputs, pos + 1);
    }
  }

  /** A turn source: answers a request, made with the story history, with
      a turn, or with `None` when the turn cannot be fetched. */
  type Fetch = string -> Option<Turn>

  /** The turn sources `play_game` uses: the i-th request is `get_ai_turn`
      with the i-th generator behaviour. */
  function Fetchers(generator: seq<string -> Option<string>>): (fetch: seq<Fetch>)
    ensures |fetch| == |generator|
  {
    seq(|generator|, i requires 0 <= i < |generator| => (h => GetAiTurn(h, generator[i])))
  }

  /** The i-th turn source answers a history as `get_ai_turn` does with the
      i-th generator behaviour: no turn exactly when the generator fails. */
  lemma FetchersAt(generator: seq<string -> Option<string>>, i: nat, h: string)
    requires i < |generator|
    ensures Fetchers(generator)[i](h) == GetAiTurn(h, generator[i])
    ensures Fetchers(generator)[i](h).None? <==> generator[i](Prompt(h)).None?
  {
  }

  /** Only whether the i-th turn source answers: it fails exactly when the
      generator does. */
  lemma FetchersFail(generator: seq<string -> Option<string>>, i: nat, h: string)
    requires i < |generator|
    ensures Fetchers(generator)[i](h).None? <==> generator[i](Prompt(h)).None?
  {
    FetchersAt(generator, i, h);
  }

  /** The rest of the game from the top of the outer loop, with `calls`
      the histories sent so far and `state` the turn fetched last; the
      next request goes to `fetch[|calls|]`. */
  function Continue(inputs: seq<string>, fetch: seq<Fetch>,
                    history: string, calls: seq<string>, state: Option<Turn>, pos: nat): (e: Ending)
    requires pos <= |inputs| && |calls| <= |fetch|
    ensures calls <= e.calls && |e.calls| <= |fetch|
    ensures history <= e.history
    ensures pos <= e.consumed <= |inputs|
    decreases |fetch| - |calls|
  {
    match state
    case None => Ending(history, calls, pos, Unavailable)
    case Some(turn) =>
      if turn.choices.items == map[] then Ending(history, calls, pos, DeadEnd)
      else
        match AwaitChoice(turn.choices.items, "", inputs, pos)
        case Closed => Ending(history, calls, |inputs|, InputClosed)
        case Quitted(n) => Ending(history, calls, n, PlayerQuit)
        case Chosen(key, n) =>
          var h := history + ChoseTag + turn.choices.items[key];
          if |calls| == |fetch| then Ending(h, calls, n, GeneratorExhausted)
          else Continue(inputs, fetch, h, calls + [h], fetch[|calls|](h), n)
  }

  /** The game played against any turn sources: fetch the first turn for the
      opening, then play. */
  function Run(inputs: seq<string>, fetch: seq<Fetch>): (e: Ending)
    ensures Opening <= e.history && |e.calls| <= |fetch| && e.consumed <= |inputs|
  {
    if fetch == [] then Ending(Opening, [], 0, GeneratorExhausted)
    else Continue(inputs, fetch, Opening, [Opening], fetch[0](Opening), 0)
  }

  /** `play_game` with its text generator. */
  function Play(inputs: seq<string>, generator: seq<string -> Option<string>>): (e: Ending)
    ensures Opening <= e.history && |e.calls| <= |generator| && e.consumed <= |inputs|
  {
    Run(inputs, Fetchers(generator))
  }

  /** `play_game` as the source runs it: an outer loop over turns and an
      inner loop over the player's inputs.  Each `get_ai_turn` call goes to
      the next turn source; `PlayGame(inputs, Fetchers(generator))` is
      `play_game` with the behaviours `generator`. */
  method PlayGame(inputs: seq<string>, fetch: seq<Fetch>)
    returns (history: string, calls: seq<string>, consumed: nat, reason: EndReason)
    ensures Ending(history, calls, consumed, reason) == Run(inputs, fetch)
  {
    history := Opening;
    calls := [];
    consumed := 0;
    if |fetch| == 0 {
      reason := GeneratorExhausted;
      return;
    }
    var state := fetch[0](history);
    calls := [history];
    while true
      invariant 1 <= |calls| <= |fetch| && consumed <= |inputs|
      invariant Continue(inputs, fetch, history, calls, state, consumed) == Run(inputs, fetch)
      decreases |fetch| - |calls|
    {
      if state.None? || state.value.choices.items == map[] {
        reason := if state.None? then Unavailable else DeadEnd;
        return;
      }
      var choices := state.value.choices.items;
      var playerInput := "";
      ghost var start := consumed;
      while playerInput !in choices
        invariant start <= consumed <= |inputs|
        invariant AwaitChoice(choices, playerInput, inputs, consumed) == AwaitChoice(choices, "", inputs, start)
        decreases |inputs| - consumed
      {
        if consumed == |inputs| {
          reason := InputClosed;
          return;
        }
        playerInput := inputs[consumed];
        consumed := consumed + 1;
        if playerInput == Quit {
          reason := PlayerQuit;
          return;
        }
      }
      ChoiceAdvances(inputs, fetch, history, calls, state.value, start, playerInput, consumed);
      history := history + ChoseTag + choices[playerInput];
      if |calls| == |fetch| {
        reason := GeneratorExhausted;
        return;
      }
      state := fetch[|calls|](history);
      calls := calls + [history];
    }
  }

  // ---------------------------------------------------------------------------
  // What the loop promises

  /** `b` is `a` followed by a chosen path: `a + "\nPlayer chose to: " + d`. */
  predicate Extends(a: string, b: string)
  {
    |a| + |ChoseTag| <= |b| && b[..|a| + |ChoseTag|] == a + ChoseTag
  }

  /** `b` is `a` followed by the path of one of the choices `t` offers:
      `t` is a turn and `b == a + "\nPlayer chose to: " + t.choices[k]`
      for one of its keys `k`. */
  predicate ChoseFrom(t: Option<Turn>, a: string, b: string)
  {
    t.Some? && exists k | k in t.value.choices.items :: b == a + ChoseTag + t.value.choices.items[k]
  }

  /** Each history sent is the one sent before it followed by the path of a
      choice of the turn that request was answered with. */
  predicate Chain(fetch: seq<Fetch>, calls: seq<string>)
    requires |calls| <= |fetch|
  {
    forall i, j | 0 <= i < |calls| && 0 <= j < |calls| && j == i + 1 ::
      ChoseFrom(fetch[i](calls[i]), calls[i], calls[j])
  }

  /** The first `n` requests in `calls` were answered. */
  predicate Answered(fetch: seq<Fetch>, calls: seq<string>, n: nat)
    requires n <= |calls| <= |fetch|
  {
    forall i | 0 <= i < n :: fetch[i](calls[i]).Some?
  }

  /** Every turn a source answers with offers a choice. */
  ghost predicate Offering(fetch: seq<Fetch>)
  {
    forall i, h | 0 <= i < |fetch| :: fetch[i](h).Some? ==> fetch[i](h).value.choices.items != map[]
  }

  lemma ChainStep(fetch: seq<Fetch>, calls: seq<string>, h: string)
    requires 1 <= |calls| < |fetch| && Chain(fetch, calls)
    requires ChoseFrom(fetch[|calls| - 1](calls[|calls| - 1]), calls[|calls| - 1], h)
    ensures Chain(fetch, calls + [h])
  {
    var calls' := calls + [h];
    forall i, j | 0 <= i < |calls'| && 0 <= j < |calls'| && j == i + 1
      ensures ChoseFrom(fetch[i](calls'[i]), calls'[i], calls'[j])
    {
      assert calls'[i] == calls[i];
      if j < |calls| {
        assert calls'[j] == calls[j];
      }
    }
  }

  /** How a game may end: the histories sent form a chain in which every
      request but the last was answered; the game stops as `Unavailable`
      exactly when the last request got no turn; it never meets a turn
      without choices; it stops on `quit` only after reading `quit`, on
      closed input only with every input read, and on exhausted sources
      only after a choice of the last turn was added to the history. */
  predicate Settled(inputs: seq<string>, fetch: seq<Fetch>, e: Ending)
  {
    && 1 <= |e.calls| <= |fetch| && e.consumed <= |inputs|
    && Chain(fetch, e.calls) && Answered(fetch, e.calls, |e.calls| - 1)
    && e.reason != DeadEnd
    && (e.reason == Unavailable <==> fetch[|e.calls| - 1](e.calls[|e.calls| - 1]).None?)
    && (e.reason != GeneratorExhausted ==> e.history == e.calls[|e.calls| - 1])
    && (e.reason == GeneratorExhausted ==>
          |e.calls| == |fetch| && ChoseFrom(fetch[|e.calls| - 1](e.calls[|e.calls| - 1]), e.calls[|e.calls| - 1], e.history))
    && (e.reason == PlayerQuit ==> 0 < e.consumed && inputs[e.consumed - 1] == Quit)
    && (e.reason == InputClosed ==> e.consumed == |inputs|)
  }

  /** The outer loop's invariant, carried to the end of the game; `state`
      is the turn fetched for the last history sent. */
  lemma {:induction false} ContinueEnds(inputs: seq<string>, fetch: seq<Fetch>,
                                        calls: seq<string>, state: Option<Turn>, pos: nat)
    requires pos <= |inputs| && 1 <= |calls| <= |fetch| && Offering(fetch)
    requires Chain(fetch, calls) && Answered(fetch, calls, |calls| - 1)
    requires state == fetch[|calls| - 1](calls[|calls| - 1])
    ensures var e := Continue(inputs, fetch, calls[|calls| - 1], calls, state, pos);
      calls <= e.calls && Settled(inputs, fetch, e)
    decreases |fetch| - |calls|, 2
  {
    var history := calls[|calls| - 1];
    var e := Continue(inputs, fetch, history, calls, state, pos);
    if state.None? {
      assert e == Ending(history, calls, pos, Unavailable);
    } else {
      var items := state.value.choices.items;
      assert items != map[];
      match AwaitChoice(items, "", inputs, pos)
      case Closed =>
        assert e == Ending(history, calls, |inputs|, InputClosed);
      case Quitted(n) =>
        AwaitChoiceSpec(items, "", inputs, pos);
        assert e == Ending(history, calls, n, PlayerQuit);
      case Chosen(key, n) =>
        var h := history + ChoseTag + items[key];
        assert Answered(fetch, calls, |calls|);
        assert ChoseFrom(state, history, h) by {
          assert key in state.value.choices.items && h == history + ChoseTag + state.value.choices.items[key];
        }
        if |calls| < |fetch| {
          assert e == Continue(inputs, fetch, h, calls + [h], fetch[|calls|](h), n);
          ChosenEnds(inputs, fetch, calls, h, n);
        } else {
          assert e == Ending(h, calls, n, GeneratorExhausted);
        }
    }
  }

  lemma {:induction false} ChosenEnds(inputs: seq<string>, fetch: seq<Fetch>,
                                      calls: seq<string>, h: string, n: nat)
    requires n <= |inputs| && 1 <= |calls| < |fetch| && Offering(fetch)
    requires Chain(fetch, calls) && Answered(fetch, calls, |calls|)
    requires ChoseFrom(fetch[|calls| - 1](calls[|calls| - 1]), calls[|calls| - 1], h)
    ensures var e := Continue(inputs, fetch, h, calls + [h], fetch[|calls|](h), n);
      calls <= e.calls && Settled(inputs, fetch, e)
    decreases |fetch| - |calls| - 1, 3
  {
    var calls' := calls + [h];
    ExtendCalls(fetch, calls, h);
    assert calls'[|calls'| - 1] == h && |calls'| - 1 == |calls|;
    ContinueEnds(inputs, fetch, calls', fetch[|calls|](h), n);
  }

  lemma ExtendCalls(fetch: seq<Fetch>, calls: seq<string>, h: string)
    requires 1 <= |calls| < |fetch|
    requires Chain(fetch, calls) && Answered(fetch, calls, |calls|)
    requires ChoseFrom(fetch[|calls| - 1](calls[|calls| - 1]), calls[|calls| - 1], h)
    ensures Chain(fetch, calls + [h]) && Answered(fetch, calls + [h], |calls|)
    ensures (calls + [h])[|calls|] == h && calls <= calls + [h]
  {
    ChainStep(fetch, calls, h);
    var calls' := calls + [h];
    forall i | 0 <= i < |calls| ensures calls'[i] == calls[i] {}
  }

  /** Every turn `get_ai_turn` returns offers a choice. */
  lemma FetchersOffer(generator: seq<string -> Option<string>>)
    ensures Offering(Fetchers(generator))
  {
    forall i, h | 0 <= i < |generator| ensures Fetchers(generator)[i](h).Some? ==> Fetchers(generator)[i](h).value.choices.items != map[] {
      FetchersAt(generator, i, h);
    }
  }

  /** What `play_game` promises about the whole game: the first request
      carries the opening, every later one extends the one before by a
      chosen path, and it never stops because a turn had no choices. */
  lemma PlayEnds(inputs: seq<string>, generator: seq<string -> Option<string>>)
    requires generator != []
    ensures Play(inputs, generator).calls[0] == Opening
    ensures Settled(inputs, Fetchers(generator), Play(inputs, generator))
  {
    FetchersOffer(generator);
    RunEnds(inputs, Fetchers(generator));
  }

  /** The generator's side of the game: every call but the last was
      answered, and the game stops as `Unavailable` exactly when the last
      call failed. */
  lemma PlayRequests(inputs: seq<string>, generator: seq<string -> Option<string>>)
    requires generator != []
    ensures var e := Play(inputs, generator); var last := |e.calls| - 1;
      && 0 <= last < |generator|
      && (forall i | 0 <= i < last :: generator[i](Prompt(e.calls[i])).Some?)
      && (e.reason == Unavailable <==> generator[last](Prompt(e.calls[last])).None?)
  {
    PlayEnds(inputs, generator);
    var e := Play(inputs, generator);
    var last := |e.calls| - 1;
    FetchersAnswered(generator, e.calls, last);
    FetchersFail(generator, last, e.calls[last]);
  }

  /** The turn sources answered the first `n` calls exactly when the
      generator answered their prompts. */
  lemma FetchersAnswered(generator: seq<string -> Option<string>>, calls: seq<string>, n: nat)
    requires n <= |calls| <= |generator|
    ensures Answered(Fetchers(generator), calls, n) <==> forall i | 0 <= i < n :: generator[i](Prompt(calls[i])).Some?
  {
    forall i | 0 <= i < n ensures Fetchers(generator)[i](calls[i]).Some? <==> generator[i](Prompt(calls[i])).Some? {
      FetchersFail(generator, i, calls[i]);
    }
  }

  /** The game over any turn sources that always offer a choice: the calls
      start with the opening and the ending is settled. */
  lemma RunEnds(inputs: seq<string>, fetch: seq<Fetch>)
    requires fetch != [] && Offering(fetch)
    ensures Run(inputs, fetch).calls[0] == Opening && Settled(inputs, fetch, Run(inputs, fetch))
  {
    ContinueEnds(inputs, fetch, [Opening], fetch[0](Opening), 0);
  }

  /** When the first request fails, the chronicle ends at once, before the
      player is asked for anything. */
  lemma FirstRequestFails(inputs: seq<string>, generator: seq<string -> Option<string>>)
    requires generator != [] && generator[0](Prompt(Opening)).None?
    ensures Play(inputs, generator) == Ending(Opening, [Opening], 0, Unavailable)
  {
    FetchersAt(generator, 0, Opening);
  }

  /** A generator that always answers keeps the game going until the player
      quits, the input runs out or the generator's behaviours are used up. */
  lemma AlwaysAnswered(inputs: seq<string>, generator: seq<string -> Option<string>>)
    requires generator != []
    requires forall i, p | 0 <= i < |generator| :: generator[i](p).Some?
    ensures Play(inputs, generator).reason in {PlayerQuit, InputClosed, GeneratorExhausted}
  {
    PlayEnds(inputs, generator);
    PlayRequests(inputs, generator);
  }

  /** `quit` is checked before the key lookup: it ends the game even when a
      turn offers `quit` as a key, and no further request is made. */
  lemma {:induction false} QuitFirst(inputs: seq<string>, fetch: seq<Fetch>,
                                     history: string, calls: seq<string>, turn: Turn, pos: nat, j: nat)
    requires |calls| <= |fetch| && "" !in turn.choices.items && turn.choices.items != map[]
    requires pos <= j < |inputs| && inputs[j] == Quit
    requires forall i | pos <= i < j :: inputs[i] != Quit && inputs[i] !in turn.choices.items
    ensures Continue(inputs, fetch, history, calls, Some(turn), pos) == Ending(history, calls, j + 1, PlayerQuit)
    decreases j - pos
  {
    if pos < j {
      InvalidInputIgnored(inputs, fetch, history, calls, turn, pos);
      QuitFirst(inputs, fetch, history, calls, turn, pos + 1, j);
    } else {
      assert AwaitChoice(turn.choices.items, "", inputs, pos) == Quitted(pos + 1);
    }
  }

  /** Which non-key was typed last does not matter to the rest of the wait. */
  lemma AwaitSkip(choices: map<string, string>, c1: string, c2: string, inputs: seq<string>, pos: nat)
    requires pos <= |inputs| && c1 !in choices && c2 !in choices
    ensures AwaitChoice(choices, c1, inputs, pos) == AwaitChoice(choices, c2, inputs, pos)
  {
  }

  /** An input that is neither `quit` nor a key is read and ignored: the game
      goes on exactly as if it had not been typed, history unchanged. */
  lemma InvalidInputIgnored(inputs: seq<string>, fetch: seq<Fetch>,
                            history: string, calls: seq<string>, turn: Turn, pos: nat)
    requires |calls| <= |fetch| && "" !in turn.choices.items && turn.choices.items != map[]
    requires pos < |inputs| && inputs[pos] != Quit && inputs[pos] !in turn.choices.items
    ensures Continue(inputs, fetch, history, calls, Some(turn), pos)
         == Continue(inputs, fetch, history, calls, Some(turn), pos + 1)
  {
    AwaitSkip(turn.choices.items, inputs[pos], "", inputs, pos + 1);
  }

  /** Choosing the path `key` appends its description to the history, which
      grows strictly, and makes exactly one new request, to the next turn
      source, with the new history; only with no source left does the game
      stop instead. */
  lemma ChoiceAdvances(inputs: seq<string>, fetch: seq<Fetch>,
                       history: string, calls: seq<string>, turn: Turn, pos: nat, key: string, n: nat)
    requires pos <= |inputs| && |calls| <= |fetch| && turn.choices.items != map[]
    requires AwaitChoice(turn.choices.items, "", inputs, pos) == Chosen(key, n)
    ensures var h := history + ChoseTag + turn.choices.items[key];
      var e := Continue(inputs, fetch, history, calls, Some(turn), pos);
      && Extends(history, h) && history < h
      && (|calls| < |fetch| ==> e == Continue(inputs, fetch, h, calls + [h], fetch[|calls|](h), n))
      && (|calls| == |fetch| ==> e == Ending(h, calls, n, GeneratorExhausted))
  {
    var h := history + ChoseTag + turn.choices.items[key];
    assert h[..|history| + |ChoseTag|] == history + ChoseTag;
    assert h[..|history|] == history;
  }

  /** With fallback choice `"2"` ("End the journey for now.") the game does
      not end: it is a path like any other and leads to a new request. */
  lemma FallbackKeepsPlaying(inputs: seq<string>, fetch: seq<Fetch>,
                             history: string, calls: seq<string>, pos: nat)
    requires |calls| < |fetch| && pos < |inputs| && inputs[pos] == "2"
    ensures var h := history + ChoseTag + "End the journey for now.";
      Continue(inputs, fetch, history, calls, Some(Fallback), pos)
        == Continue(inputs, fetch, h, calls + [h], fetch[|calls|](h), pos + 1)
  {
    assert "" !in Fallback.choices.items && "2" in Fallback.choices.items;
    assert AwaitChoice(Fallback.choices.items, "", inputs, pos) == Chosen("2", pos + 1);
    ChoiceAdvances(inputs, fetch, history, calls, Fallback, pos, "2", pos + 1);
  }
}
