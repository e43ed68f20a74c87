/**
  The storytelling engine of The Oracle's Chronicle: the reply parser
  (`parse_ai_response`) and the turn fetch (`get_ai_turn`).

  A turn is a scene text and an insertion-ordered mapping from choice keys
  to choice descriptions.  The parser cuts the generator's reply at the
  first `CHOICES:` marker; the part before it, with every `SCENE:` label
  removed and stripped, is the scene; the part after it (up to a second
  marker, if any), stripped and cut into lines, gives one choice per line,
  split at the first `". "`.  A reply without the marker, or with a line
  that has no `". "`, yields the fixed fallback turn instead.
*/
module Oracle {
  import opened Options
  import opened PyStr
  import opened PyDict

  datatype Turn = Turn(scene: string, choices: Dict)

  const Marker: string := "CHOICES:"
  const SceneLabel: string := "SCENE:"
  const KeySep: string := ". "
  const LineBreak: string := "\n"

  /** The turn returned when a reply cannot be parsed. */
  const Fallback: Turn :=
    Turn("The threads of fate are tangled. The Oracle struggles to see the path forward.",
         Dict(["1", "2"], map["1" := "Wait for the vision to clear.", "2" := "End the journey for now."]))

  // ---------------------------------------------------------------------------
  // The reply grammar

  /** One choice line as `num, desc = line.split('. ', 1)`, both parts stripped;
      `None` where the unpacking raises `ValueError`. */
  function ChoiceLine(line: string): (r: Option<(string, string)>)
    ensures r.None? <==> !Contains(line, KeySep)
  {
    match SplitOnce(line, KeySep)
    case None => None
    case Some((num, desc)) => Some((Strip(num), Strip(desc)))
  }

  /** Every line splits into a key and a description. */
  predicate WellFormed(lines: seq<string>)
  {
    forall k | 0 <= k < |lines| :: ChoiceLine(lines[k]).Some?
  }

  /** The key-description pair of every line, in order. */
  function Pairs(lines: seq<string>): (ps: seq<(string, string)>)
    requires WellFormed(lines)
    ensures |ps| == |lines|
  {
    if lines == [] then []
    else
      WellFormedPrefix(lines, |lines| - 1);
      Pairs(lines[..|lines| - 1]) + [ChoiceLine(lines[|lines| - 1]).value]
  }

  /** The pair of line `k` is that line's key and description. */
  lemma {:induction false} PairsAt(lines: seq<string>, k: nat)
    requires WellFormed(lines) && k < |lines|
    ensures Some(Pairs(lines)[k]) == ChoiceLine(lines[k])
  {
    if k < |lines| - 1 {
      var init := lines[..|lines| - 1];
      WellFormedPrefix(lines, |lines| - 1);
      assert init[k] == lines[k];
      PairsAt(init, k);
    }
  }

  lemma WellFormedPrefix(lines: seq<string>, n: nat)
    requires n <= |lines|
    ensures WellFormed(lines[..n]) <==> forall k | 0 <= k < n :: ChoiceLine(lines[k]).Some?
  {
    var p := lines[..n];
    forall k | 0 <= k < n ensures p[k] == lines[k] {}
  }

  /** One more line that splits extends the pairs by that line's pair. */
  lemma PairsSnoc(lines: seq<string>, i: nat)
    requires i < |lines| && WellFormed(lines[..i]) && ChoiceLine(lines[i]).Some?
    ensures WellFormed(lines[..i + 1])
    ensures Pairs(lines[..i + 1]) == Pairs(lines[..i]) + [ChoiceLine(lines[i]).value]
  {
    var next := lines[..i + 1];
    assert next[..|next| - 1] == lines[..i] && next[|next| - 1] == lines[i];
    assert WellFormed(next) by {
      forall k | 0 <= k < i + 1 ensures ChoiceLine(next[k]).Some? {
        if k < i {
          assert next[k] == lines[..i][k];
        }
      }
    }
  }

  /** The lines of a choices segment: `segment.strip().split('\n')`. */
  function ChoiceLines(segment: string): (lines: seq<string>)
    ensures lines != []
  {
    Split(Strip(segment), LineBreak)
  }

  /** The turn made of the text before the marker and the text after it, or
      `None` where a choice line raises `ValueError`. */
  function ParseParts(scenePart: string, choicePart: string): (r: Option<Turn>)
    ensures r.Some? ==> Valid(r.value.choices) && r.value.choices.keys != []
  {
    var lines := ChoiceLines(choicePart);
    if WellFormed(lines)
    then Some(Turn(Strip(Replace(scenePart, SceneLabel, "")), FromPairs(Pairs(lines))))
    else None
  }

  /** The parse of `parse_ai_response` when nothing raises; `None` where Python
      raises `IndexError` (no marker, so no `parts[1]`) or `ValueError` (a line
      without `". "`). */
  function TryParse(text: string): (r: Option<Turn>)
    ensures r.Some? ==> Valid(r.value.choices) && r.value.choices.keys != []
  {
    var parts := Split(text, Marker);
    if |parts| < 2 then None else ParseParts(parts[0], parts[1])
  }

  /** `parse_ai_response`: the parsed turn, or the fallback turn where the parse
      raises.  Either way the turn offers at least one choice. */
  function Parse(text: string): (t: Turn)
    ensures Valid(t.choices) && t.choices.keys != [] && t.choices.items != map[]
  {
    match TryParse(text)
    case Some(turn) => turn
    case None => FallbackValid(); Fallback
  }

  lemma FallbackValid()
    ensures Valid(Fallback.choices) && Fallback.choices.items != map[]
  {
    assert "1" in Fallback.choices.items;
  }

  /** `parse_ai_response` as the source runs it. */
  method ParseAiResponse(text: string) returns (turn: Turn)
    ensures turn == Parse(text)
  {
    var parts := Split(text, Marker);
    var scene := Strip(Replace(parts[0], SceneLabel, ""));
    if |parts| < 2 {
      return Fallback;      // parts[1] raises IndexError
    }
    var lines := Split(Strip(parts[1]), LineBreak);
    var choices := ParseChoices(lines);
    if choices.None? {
      return Fallback;      // a line's unpacking raised ValueError
    }
    return Turn(scene, choices.value);
  }

  /** The loop of `parse_ai_response`: the choices dictionary is filled in
      place, line by line, and the first line without `". "` abandons it. */
  method ParseChoices(lines: seq<string>) returns (r: Option<Dict>)
    ensures r.Some? <==> WellFormed(lines)
    ensures r.Some? ==> r.value == FromPairs(Pairs(lines))
  {
    var choices := Empty;
    for i := 0 to |lines|
      invariant WellFormed(lines[..i])
      invariant choices == FromPairs(Pairs(lines[..i]))
    {
      var split := SplitOnce(lines[i], KeySep);
      if split.None? {
        assert !WellFormed(lines) by { assert ChoiceLine(lines[i]).None?; }
        return None;
      }
      var (num, desc) := split.value;
      PairsSnoc(lines, i);
      FromPairsSnoc(Pairs(lines[..i]), (Strip(num), Strip(desc)));
      choices := Put(choices, Strip(num), Strip(desc));
    }
    assert lines[..|lines|] == lines;
    return Some(choices);
  }

  // ---------------------------------------------------------------------------
  // What the parser promises

  /** The marker never straddles the end of a text that does not contain it:
      in `a + Marker + rest`, its first occurrence is the one after `a`. */
  lemma FirstMarker(a: string, rest: string)
    requires !Contains(a, Marker)
    ensures Find(a + Marker + rest, Marker) == Some(|a|)
    ensures Split(a + Marker + rest, Marker) == [a] + Split(rest, Marker)
  {
    var s := a + Marker + rest;
    assert s[|a|..|a| + |Marker|] == Marker;
    assert At(s, |a|, Marker);
    forall j: nat | j < |a| ensures !At(s, j, Marker) {
      if j + |Marker| <= |a| {
        assert s == a + (Marker + rest);
        AtExtended(a, Marker + rest, j, Marker);
      } else {
        // the window would end inside the marker, on one of its first seven
        // characters, but only the marker's last character is ':'
        assert s[j + 7] == Marker[j + 7 - |a|] != Marker[7];
        assert s[j..j + |Marker|][7] == s[j + 7];
      }
    }
    assert s[..|a|] == a && s[|a| + |Marker|..] == rest;
    SplitAtFirst(s, Marker, |a|);
  }

  /** A reply without the marker parses to the fallback turn. */
  lemma NoMarkerFallback(text: string)
    requires !Contains(text, Marker)
    ensures Parse(text) == Fallback
  {
  }

  /** On a reply `a + "CHOICES:" + b` whose `a` holds no marker, `a` is the
      scene part and the choices part is `b` up to a second marker, if any. */
  lemma ParseShape(a: string, b: string)
    requires !Contains(a, Marker)
    ensures TryParse(a + Marker + b) == ParseParts(a, Split(b, Marker)[0])
    ensures !Contains(b, Marker) ==> TryParse(a + Marker + b) == ParseParts(a, b)
  {
    FirstMarker(a, b);
  }

  /** Text after a second marker is dropped. */
  lemma SecondMarkerIgnored(a: string, b: string, c: string)
    requires !Contains(a, Marker) && !Contains(b, Marker)
    ensures Parse(a + Marker + b + Marker + c) == Parse(a + Marker + b)
  {
    Regroup(a + Marker, b, Marker, c);
    SecondMarkerDropped(a, b, c);
  }

  lemma SecondMarkerDropped(a: string, b: string, c: string)
    requires !Contains(a, Marker) && !Contains(b, Marker)
    ensures TryParse(a + Marker + (b + Marker + c)) == TryParse(a + Marker + b)
  {
    FirstMarker(b, c);
    ParseShape(a, b + Marker + c);
    ParseShape(a, b);
  }

  /** When every choice line splits, the reply parses: the scene is the text
      before the marker without its `SCENE:` labels, stripped, and each key
      maps to the description of the last line that carries it. */
  lemma ParsedChoice(a: string, b: string, k: nat)
    requires !Contains(a, Marker) && !Contains(b, Marker)
    requires WellFormed(ChoiceLines(b)) && k < |ChoiceLines(b)|
    requires forall k' | k < k' < |ChoiceLines(b)| ::
               Pairs(ChoiceLines(b))[k'].0 != Pairs(ChoiceLines(b))[k].0
    ensures TryParse(a + Marker + b).Some?
    ensures Parse(a + Marker + b).scene == Strip(Replace(a, SceneLabel, ""))
    ensures var (key, desc) := Pairs(ChoiceLines(b))[k];
      key in Parse(a + Marker + b).choices.items && Parse(a + Marker + b).choices.items[key] == desc
  {
    ParseShape(a, b);
    FromPairsValue(Pairs(ChoiceLines(b)), k);
  }

  /** Every key of a parsed reply comes from a choice line, and the keys are
      listed in the order of the lines that first carry them. */
  lemma ParsedKeyOrder(a: string, b: string, i: nat, j: nat)
    requires !Contains(a, Marker) && !Contains(b, Marker)
    requires WellFormed(ChoiceLines(b))
    requires i < j < |Parse(a + Marker + b).choices.keys|
    ensures var ps := Pairs(ChoiceLines(b)); var keys := Parse(a + Marker + b).choices.keys;
      HasKey(ps, keys[i]) && HasKey(ps, keys[j]) && FirstIndex(ps, keys[i]) < FirstIndex(ps, keys[j])
  {
    ParseShape(a, b);
    FromPairsOrder(Pairs(ChoiceLines(b)), i, j);
  }

  /** A choice line without `". "` makes the whole reply fall back; no partial
      dictionary survives. */
  lemma MalformedLineFallback(a: string, b: string, k: nat)
    requires !Contains(a, Marker) && !Contains(b, Marker)
    requires k < |ChoiceLines(b)| && !Contains(ChoiceLines(b)[k], KeySep)
    ensures Parse(a + Marker + b) == Fallback
  {
    ParseShape(a, b);
    assert ChoiceLine(ChoiceLines(b)[k]).None?;
  }

  /** A choices part that is empty after stripping splits to the single line
      `""`, which has no `". "`, so the reply falls back. */
  lemma EmptyChoicesFallback(a: string, b: string)
    requires !Contains(a, Marker) && AllSpace(b)
    ensures Parse(a + Marker + b) == Fallback
  {
    assert !Contains(b, Marker) by {
      forall j: nat | j + |Marker| <= |b| ensures !At(b, j, Marker) {
        assert IsSpace(b[j]) && b[j..j + |Marker|][0] == b[j];
      }
    }
    assert Strip(b) == "";
    assert !Contains("", LineBreak);
    assert ChoiceLines(b) == [""];
    MalformedLineFallback(a, b, 0);
  }

  /** A blank line between two choice lines makes the reply fall back: the
      choices part splits on line breaks around it, leaving an empty line. */
  lemma BlankLineFallback(a: string, x: string, y: string)
    requires !Contains(a, Marker) && !Contains(x + "\n\n" + y, Marker)
    requires x != [] && !IsSpace(x[0]) && y != [] && !IsSpace(y[|y| - 1])
    ensures Parse(a + Marker + x + "\n\n" + y) == Fallback
  {
    var b := x + "\n\n" + y;
    assert a + Marker + x + "\n\n" + y == a + Marker + b;
    BlankLineSplit(x, y);
    MalformedLineFallback(a, b, |Split(x, LineBreak)|);
  }

  lemma BlankLineSplit(x: string, y: string)
    requires x != [] && !IsSpace(x[0]) && y != [] && !IsSpace(y[|y| - 1])
    ensures |Split(x, LineBreak)| < |ChoiceLines(x + "\n\n" + y)|
    ensures ChoiceLines(x + "\n\n" + y)[|Split(x, LineBreak)|] == ""
  {
    var b := x + "\n\n" + y;
    assert b[0] == x[0] && b[|b| - 1] == y[|y| - 1];
    StripTrimmed(b);
    BlankLineParts(x, y);
    var p, q := Split(x, LineBreak), Split(y, LineBreak);
    assert ChoiceLines(b) == p + ([""] + q);
    assert (p + ([""] + q))[|p|] == "";
  }

  lemma BlankLineParts(x: string, y: string)
    ensures Split(x + "\n\n" + y, LineBreak) == Split(x, LineBreak) + ([""] + Split(y, LineBreak))
  {
    var y2 := "" + ['\n'] + y;
    assert x + "\n\n" + y == x + ['\n'] + y2;
    SplitOnChar(x, '\n', y2);
    SplitOnChar("", '\n', y);
    assert !Contains("", LineBreak);
    assert Split("", LineBreak) == [""];
  }

  /** A line such as `". foo"` yields the empty key. */
  lemma EmptyKeyLine(desc: string)
    ensures ChoiceLine(KeySep + desc) == Some(("", Strip(desc)))
  {
    assert At(KeySep + desc, 0, KeySep);
    assert (KeySep + desc)[..0] == "" && (KeySep + desc)[|KeySep|..] == desc;
  }

  // ---------------------------------------------------------------------------
  // The format the prompt asks for

  /** A choice written the way the prompt asks for it: `key. description`. */
  function RenderChoice(p: (string, string)): string
  {
    p.0 + KeySep + p.1
  }

  function RenderLines(ps: seq<(string, string)>): (lines: seq<string>)
    ensures |lines| == |ps|
    ensures forall k | 0 <= k < |ps| :: lines[k] == RenderChoice(ps[k])
  {
    seq(|ps|, k requires 0 <= k < |ps| => RenderChoice(ps[k]))
  }

  /** A reply in the requested format: the labelled scene, the marker on a
      line of its own, then one line per choice. */
  function Render(scene: string, ps: seq<(string, string)>): string
    requires ps != []
  {
    RenderScene(scene) + Marker + RenderChoices(ps)
  }

  /** The labelled scene line. */
  function RenderScene(scene: string): string
  {
    SceneLabel + " " + scene + LineBreak
  }

  /** The choice lines, each on a line of its own after the marker's line. */
  function RenderChoices(ps: seq<(string, string)>): string
    requires ps != []
  {
    LineBreak + Join(RenderLines(ps), LineBreak)
  }

  /** A choice the format carries unchanged: key and description already
      stripped, a non-empty description, no line break in either, no `". "`
      in the key and no marker in the line. */
  predicate Renderable(p: (string, string))
  {
    && Trimmed(p.0) && Trimmed(p.1) && p.1 != []
    && !Contains(p.0, KeySep)
    && '\n' !in p.0 && '\n' !in p.1
    && !Contains(RenderChoice(p), Marker)
  }

  /** A line `key. description` splits at the `". "` after the key, whatever
      the description holds, as long as the key holds no `". "`. */
  lemma KeyedLine(p: (string, string))
    requires !Contains(p.0, KeySep)
    ensures ChoiceLine(RenderChoice(p)) == Some((Strip(p.0), Strip(p.1)))
  {
    var s := RenderChoice(p);
    var n := |p.0|;
    assert s[n..n + 2] == KeySep;
    assert At(s, n, KeySep);
    forall j: nat | j < n ensures !At(s, j, KeySep) {
      if j + 2 <= n {
        assert s == p.0 + (KeySep + p.1);
        AtExtended(p.0, KeySep + p.1, j, KeySep);
      } else {
        // the window would be the key's last character and the separator's '.'
        assert s[j..j + 2][1] == s[n] == '.';
      }
    }
    assert Find(s, KeySep) == Some(n);
    assert s[..n] == p.0 && s[n + 2..] == p.1;
  }

  lemma RenderedLineTrimmed(p: (string, string))
    requires Renderable(p)
    ensures RenderChoice(p) != [] && Trimmed(RenderChoice(p))
    ensures '\n' !in RenderChoice(p)
  {
    var s := RenderChoice(p);
    assert s[0] == if p.0 == [] then '.' else p.0[0];
    assert s[|s| - 1] == p.1[|p.1| - 1];
  }

  /** The scene part of a rendered reply holds no marker and parses back to the scene. */
  lemma RenderedScene(scene: string)
    requires Trimmed(scene) && !Contains(scene, Marker) && !Contains(scene, SceneLabel)
    ensures !Contains(RenderScene(scene), Marker)
    ensures Strip(Replace(RenderScene(scene), SceneLabel, "")) == scene
  {
    RenderedSceneTail(scene);
    RenderedSceneMarker(scene);
    var rest := " " + scene + LineBreak;
    assert RenderScene(scene) == SceneLabel + rest;
    ReplaceLeading(SceneLabel, rest, "");
    assert Replace(RenderScene(scene), SceneLabel, "") == rest;
    StripPadded(" ", scene, LineBreak);
  }

  lemma RenderedSceneMarker(scene: string)
    requires !Contains(scene + LineBreak, Marker)
    ensures !Contains(RenderScene(scene), Marker)
  {
    assert RenderScene(scene) == SceneLabel + [' '] + (scene + LineBreak);
    AbsentChar(SceneLabel, Marker, 1);
    ForeignChar(SceneLabel, ' ', scene + LineBreak, Marker);
  }

  lemma RenderedSceneTail(scene: string)
    requires !Contains(scene, Marker) && !Contains(scene, SceneLabel)
    ensures !Contains(scene + LineBreak, Marker)
    ensures !Contains(" " + scene + LineBreak, SceneLabel)
  {
    assert !Contains("", Marker) && !Contains("", SceneLabel);
    assert scene + LineBreak == scene + ['\n'] + "";
    ForeignChar(scene, '\n', "", Marker);
    ForeignChar(scene, '\n', "", SceneLabel);
    assert " " + scene + LineBreak == "" + [' '] + (scene + LineBreak);
    ForeignChar("", ' ', scene + LineBreak, SceneLabel);
  }

  /** The choices part of a rendered reply holds no marker and splits back
      into the rendered lines. */
  lemma RenderedChoices(ps: seq<(string, string)>)
    requires ps != []
    requires forall k | 0 <= k < |ps| :: Renderable(ps[k])
    ensures !Contains(RenderChoices(ps), Marker)
    ensures ChoiceLines(RenderChoices(ps)) == RenderLines(ps)
  {
    var lines := RenderLines(ps);
    var body := Join(lines, LineBreak);
    var b := LineBreak + body;
    forall k | 0 <= k < |lines|
      ensures lines[k] != [] && Trimmed(lines[k])
      ensures !Contains(lines[k], Marker) && '\n' !in lines[k]
    {
      RenderedLineTrimmed(ps[k]);
    }
    assert !Contains("", Marker);
    JoinLacks(lines, '\n', Marker);
    ForeignChar("", '\n', body, Marker);
    assert b == "" + ['\n'] + body;

    JoinTrimmed(lines, LineBreak);
    StripPadded(LineBreak, body, "");
    assert LineBreak + body + "" == b;
    SplitJoin(lines, '\n');
  }

  /** Each rendered line splits back into its own pair. */
  lemma RenderedPairs(ps: seq<(string, string)>)
    requires forall k | 0 <= k < |ps| :: Renderable(ps[k])
    ensures WellFormed(RenderLines(ps)) && Pairs(RenderLines(ps)) == ps
  {
    var lines := RenderLines(ps);
    forall k | 0 <= k < |lines| ensures ChoiceLine(lines[k]) == Some(ps[k]) {
      KeyedLine(ps[k]);
      StripTrimmed(ps[k].0);
      StripTrimmed(ps[k].1);
    }
    forall k | 0 <= k < |lines| ensures Pairs(lines)[k] == ps[k] {
      PairsAt(lines, k);
    }
  }

  /** The parser inverts the requested format: a reply rendered from a
      scene and a list of choices parses back to that scene and to the
      dictionary built from those choices in order. */
  lemma ParseRender(scene: string, ps: seq<(string, string)>)
    requires ps != []
    requires Trimmed(scene) && !Contains(scene, Marker) && !Contains(scene, SceneLabel)
    requires forall k | 0 <= k < |ps| :: Renderable(ps[k])
    ensures TryParse(Render(scene, ps)) == Some(Turn(scene, FromPairs(ps)))
  {
    RenderedScene(scene);
    RenderedChoices(ps);
    RenderedPairs(ps);
    ParseShape(RenderScene(scene), RenderChoices(ps));
  }

  /** The reply shape the prompt shows, filled in with a scene and two choices. */
  lemma CaveReply()
    ensures Parse("SCENE: You enter a cave.\nCHOICES:\n1. Light a torch.\n2. Turn back.")
      == Turn("You enter a cave.", Dict(["1", "2"], map["1" := "Light a torch.", "2" := "Turn back."]))
  {
    var scene := "You enter a cave.";
    var ps := [("1", "Light a torch."), ("2", "Turn back.")];
    AbsentChar(scene, Marker, 1);
    AbsentChar(scene, SceneLabel, 0);
    CaveChoice("1", "Light a torch.");
    CaveChoice("2", "Turn back.");
    ParseRender(scene, ps);
    CaveText();
    CaveDict();
  }

  lemma CaveChoice(key: string, desc: string)
    requires key == "1" || key == "2"
    requires desc == "Light a torch." || desc == "Turn back."
    ensures Renderable((key, desc))
  {
    AbsentChar(key, KeySep, 1);
    AbsentChar(RenderChoice((key, desc)), Marker, 1);
  }

  lemma CaveText()
    ensures Render("You enter a cave.", [("1", "Light a torch."), ("2", "Turn back.")])
      == "SCENE: You enter a cave.\nCHOICES:\n1. Light a torch.\n2. Turn back."
  {
    var ps := [("1", "Light a torch."), ("2", "Turn back.")];
    var scene, choices := RenderScene("You enter a cave."), RenderChoices(ps);
    assert Render("You enter a cave.", ps) == scene + Marker + choices;
    CaveLines();
    CaveScene();
    CaveConcat(scene, choices);
  }

  lemma CaveScene()
    ensures RenderScene("You enter a cave.") == "SCENE: You enter a cave.\n"
  {
  }

  lemma CaveConcat(a: string, b: string)
    requires a == "SCENE: You enter a cave.\n" && b == "\n" + "1. Light a torch." + "\n" + "2. Turn back."
    ensures a + Marker + b == "SCENE: You enter a cave.\nCHOICES:\n1. Light a torch.\n2. Turn back."
  {
    assert a + Marker + b == "SCENE: You enter a cave.\n" + "CHOICES:" + "\n" + "1. Light a torch." + "\n" + "2. Turn back.";
    CaveLiteral();
  }

  lemma CaveLiteral()
    ensures "SCENE: You enter a cave.\n" + "CHOICES:" + "\n" + "1. Light a torch." + "\n" + "2. Turn back."
      == "SCENE: You enter a cave.\nCHOICES:\n1. Light a torch.\n2. Turn back."
  {
  }

  lemma CaveLines()
    ensures RenderChoices([("1", "Light a torch."), ("2", "Turn back.")])
      == "\n" + "1. Light a torch." + "\n" + "2. Turn back."
  {
    var ps := [("1", "Light a torch."), ("2", "Turn back.")];
    var lines := RenderLines(ps);
    assert lines[0] == "1" + KeySep + "Light a torch." == "1. Light a torch.";
    assert lines[1] == "2" + KeySep + "Turn back." == "2. Turn back.";
    assert lines == ["1. Light a torch.", "2. Turn back."];
    assert lines[1..] == ["2. Turn back."];
    assert Join(lines, LineBreak) == "1. Light a torch." + "\n" + "2. Turn back.";
  }

  lemma CaveDict()
    ensures FromPairs([("1", "Light a torch."), ("2", "Turn back.")])
      == Dict(["1", "2"], map["1" := "Light a torch.", "2" := "Turn back."])
  {
    var ps := [("1", "Light a torch."), ("2", "Turn back.")];
    assert ps[..1] == [("1", "Light a torch.")];
    assert FromPairs(ps[..1]) == Dict(["1"], map["1" := "Light a torch."]);
  }

  // ---------------------------------------------------------------------------
  // Fetching a turn

  /** The text after the history in the prompt. */
  const PromptTail: string := "\n    "

  /** The fixed prompt text before the history: the storyteller persona, the
      format rules and the lead-in to the story so far. */
  const PromptHead: string :=
      "\n"
    + "    You are 'The Oracle', a mystical storyteller in a fantasy text-adventure game.\n"
    + "    Continue the story based on the history provided.\n"
    + "    \n"
    + "    RULES:\n"
    + "    1. Describe the outcome of the player's last choice in a vivid, mystical, and engaging paragraph.\n"
    + "    2. After the description, present exactly THREE new, distinct, and interesting choices for the player to make.\n"
    + "    3. The choices should be single, actionable sentences.\n"
    + "    4. **IMPORTANT**: Format your response EXACTLY like this:\n"
    + "    \n"
    + "    SCENE: [Your descriptive paragraph here.]\n"
    + "    CHOICES:\n"
    + "    1. [First choice here.]\n"
    + "    2. [Second choice here.]\n"
    + "    3. [Third choice here.]\n"
    + "    \n"
    + "    Here is the story so far:\n"
    + "    "

  /** The prompt sent to the generator for `history`. */
  function Prompt(history: string): string
  {
    PromptHead + history + PromptTail
  }

  /** The prompt holds the history verbatim, between the fixed head and tail. */
  lemma PromptParts(history: string)
    ensures var p := Prompt(history);
      && |p| == |PromptHead| + |history| + |PromptTail|
      && p[..|PromptHead|] == PromptHead
      && p[|PromptHead|..|PromptHead| + |history|] == history
      && p[|PromptHead| + |history|..] == PromptTail
  {
    var p := Prompt(history);
    assert p == PromptHead + (history + PromptTail);
    assert p[|PromptHead|..] == history + PromptTail;
  }

  /** Different histories give different prompts: the history can be read back
      from the prompt. */
  lemma PromptInjective(h1: string, h2: string)
    requires Prompt(h1) == Prompt(h2)
    ensures h1 == h2
  {
    PromptParts(h1);
    PromptParts(h2);
  }

  /** `get_ai_turn(history)`: the generator is asked with the prompt for
      `history`; a call that raises gives `None`, a reply gives its parse. */
  function GetAiTurn(history: string, generate: string -> Option<string>): (t: Option<Turn>)
    ensures t.None? <==> generate(Prompt(history)).None?
    ensures t.Some? ==> t.value == Parse(generate(Prompt(history)).value)
    ensures t.Some? ==> Valid(t.value.choices) && t.value.choices.items != map[]
  {
    match generate(Prompt(history))
    case None => None
    case Some(raw) => Some(Parse(raw))
  }
}
