/** The console command of the renderer: the line is cut at single spaces
    the way `String.split(" ")` cuts it, and its first token selects a
    camera move, an accepted no-op, or an error. The number parser and the
    camera are not part of this model: `parse` stands for
    `Double.parseDouble` (None where it throws), and the result names the
    camera move to perform instead of performing it. */
module Command {
  import opened Wrappers

  // ---------------------------------------------------------------------
  // Splitting at spaces

  /** The pieces between the spaces of `s`, empty pieces included: one more
      piece than `s` has spaces. */
  function Fields(s: string): (r: seq<string>)
    ensures |r| >= 1
  {
    if |s| == 0 then [""]
    else if s[0] == ' ' then [""] + Fields(s[1..])
    else var rest := Fields(s[1..]); [[s[0]] + rest[0]] + rest[1..]
  }

  /** The pieces put back together, one space between two pieces. */
  function Join(pieces: seq<string>): string
    requires |pieces| >= 1
  {
    if |pieces| == 1 then pieces[0] else pieces[0] + " " + Join(pieces[1..])
  }

  /** `pieces` without the empty pieces at its end. */
  function DropTrailingEmpty(pieces: seq<string>): (r: seq<string>)
    ensures |r| <= |pieces| && r == pieces[..|r|]
    ensures |r| == 0 || r[|r| - 1] != ""
    ensures forall k :: |r| <= k < |pieces| ==> pieces[k] == ""
  {
    if |pieces| == 0 then []
    else if pieces[|pieces| - 1] == "" then DropTrailingEmpty(pieces[..|pieces| - 1])
    else pieces
  }

  /** `s.split(" ")`: the whole string when it has no space; otherwise the
      pieces between spaces, without the empty ones at the end. */
  function JavaSplit(s: string): seq<string> {
    if ' ' !in s then [s] else DropTrailingEmpty(Fields(s))
  }

  predicate SpaceFree(s: string) {
    ' ' !in s
  }

  /** Every piece of a split is free of spaces. */
  lemma {:induction false} FieldsSpaceFree(s: string)
    ensures forall k :: 0 <= k < |Fields(s)| ==> SpaceFree(Fields(s)[k])
  {
    if |s| > 0 {
      FieldsSpaceFree(s[1..]);
      if s[0] != ' ' {
        var rest := Fields(s[1..]);
        assert SpaceFree(rest[0]);
      }
    }
  }

  /** Joining the pieces gives back the string. */
  lemma {:induction false} JoinFields(s: string)
    ensures Join(Fields(s)) == s
  {
    if |s| > 0 {
      JoinFields(s[1..]);
      var rest := Fields(s[1..]);
      if s[0] == ' ' {
        assert Fields(s)[1..] == rest;
      } else {
        if |rest| == 1 {
          assert Join(Fields(s)) == [s[0]] + rest[0];
        } else {
          assert Fields(s)[1..] == rest[1..];
          assert Join(rest) == rest[0] + " " + Join(rest[1..]);
        }
      }
    }
  }

  /** Splitting space-free pieces joined by spaces gives back the pieces. */
  lemma {:induction false} FieldsJoin(pieces: seq<string>)
    requires |pieces| >= 1
    requires forall k :: 0 <= k < |pieces| ==> SpaceFree(pieces[k])
    ensures Fields(Join(pieces)) == pieces
  {
    if |pieces| == 1 {
      FieldsOfSpaceFree(pieces[0]);
    } else {
      FieldsJoin(pieces[1..]);
      FieldsAppend(pieces[0], Join(pieces[1..]));
    }
  }

  lemma {:induction false} FieldsOfSpaceFree(p: string)
    requires SpaceFree(p)
    ensures Fields(p) == [p]
  {
    if |p| > 0 {
      FieldsOfSpaceFree(p[1..]);
      assert [p[0]] + p[1..] == p;
    }
  }

  /** A space-free piece, a space and a tail split into the piece
      followed by the tail's pieces. */
  lemma {:induction false} FieldsAppend(p: string, tail: string)
    requires SpaceFree(p)
    ensures Fields(p + " " + tail) == [p] + Fields(tail)
  {
    if |p| == 0 {
      assert p + " " + tail == [' '] + tail;
      assert (p + " " + tail)[1..] == tail;
    } else {
      FieldsAppend(p[1..], tail);
      assert (p + " " + tail)[1..] == p[1..] + " " + tail;
      assert [p[0]] + p[1..] == p;
    }
  }

  /** Tokens that are non-empty and space-free, joined by single spaces,
      split back into the same tokens. */
  lemma SplitJoin(tokens: seq<string>)
    requires |tokens| >= 1
    requires forall k :: 0 <= k < |tokens| ==> tokens[k] != "" && SpaceFree(tokens[k])
    ensures JavaSplit(Join(tokens)) == tokens
  {
    FieldsJoin(tokens);
    if |tokens| == 1 {
      assert Join(tokens) == tokens[0];
    } else {
      assert Join(tokens) == tokens[0] + " " + Join(tokens[1..]);
      assert (tokens[0] + " " + Join(tokens[1..]))[|tokens[0]|] == ' ';
    }
  }

  /** No piece of a split contains a space. */
  lemma SplitSpaceFree(s: string)
    ensures forall k :: 0 <= k < |JavaSplit(s)| ==> SpaceFree(JavaSplit(s)[k])
  {
    FieldsSpaceFree(s);
  }

  lemma {:induction false} FieldsTrailingSpace(s: string)
    ensures Fields(s + " ") == Fields(s) + [""]
  {
    if |s| == 0 {
      assert Fields(" ") == [""] + Fields("");
    } else {
      FieldsTrailingSpace(s[1..]);
      assert (s + " ")[1..] == s[1..] + " ";
    }
  }

  /** A space added at the end of a non-empty line is ignored. */
  lemma SplitTrailingSpace(s: string)
    requires s != ""
    ensures JavaSplit(s + " ") == JavaSplit(s)
  {
    FieldsTrailingSpace(s);
    assert (s + " ")[|s|] == ' ';
    var f := Fields(s);
    assert (f + [""])[..|f|] == f;
    if ' ' !in s {
      FieldsOfSpaceFree(s);
    }
  }

  // ---------------------------------------------------------------------
  // Dispatch

  datatype Axis = Forward | Sideward | Upwards

  /** What a command asks of the camera. */
  datatype Effect = NoEffect | Move(axis: Axis, distance: real)

  /** The exceptions the dispatcher raises, with what they report. */
  datatype CommandError =
    | MissingToken(index: nat)     // a token read beyond the end of the split
    | BadNumber(token: string)     // the distance token does not parse
    | InvalidParameter(token: string)
    | UnknownCommand(verb: string)

  /** The distance moved when the command gives none. */
  const DEFAULT_DISTANCE: real := 0.1

  /** The move a direction token selects, over distance `d`. */
  function Direction(token: string, d: real): (r: Option<Effect>)
    ensures r.Some? ==> r.value.Move? && (r.value.distance == d || r.value.distance == -d)
  {
    if token == "+f" then Some(Move(Forward, d))
    else if token == "-f" then Some(Move(Forward, -d))
    else if token == "+s" then Some(Move(Sideward, d))
    else if token == "-s" then Some(Move(Sideward, -d))
    else if token == "+u" then Some(Move(Upwards, d))
    else if token == "-u" then Some(Move(Upwards, -d))
    else None
  }

  predicate IsNoOpVerb(verb: string) {
    verb == "rotate" || verb == "mode" || verb == "exit" || verb == "save"
  }

  /** The dispatch on the split tokens, checking them in the order the
      source reads them: the verb, then the distance when there are exactly
      three tokens, then the direction. */
  function Dispatch(tokens: seq<string>, parse: string -> Option<real>): (r: Result<Effect, CommandError>)
    ensures r.Success? ==> |tokens| >= 1 && (tokens[0] == "move" || IsNoOpVerb(tokens[0]))
    ensures r.Success? && r.value.Move? ==> tokens[0] == "move" && |tokens| >= 2
    ensures r.Success? && tokens[0] == "move" ==> r.value.Move?
  {
    if |tokens| == 0 then Failure(MissingToken(0))
    else if tokens[0] == "move" then
      var d := if |tokens| == 3 then parse(tokens[2]) else Some(DEFAULT_DISTANCE);
      if d.None? then Failure(BadNumber(tokens[2]))
      else if |tokens| < 2 then Failure(MissingToken(1))
      else match Direction(tokens[1], d.value)
        case Some(effect) => Success(effect)
        case None => Failure(InvalidParameter(tokens[1]))
    else if IsNoOpVerb(tokens[0]) then Success(NoEffect)
    else Failure(UnknownCommand(tokens[0]))
  }

  /** `executeCommand`: split the line, then dispatch. A line without a
      space is a lone verb, which succeeds only as a no-op verb: a lone
      `move` lacks its direction. */
  function ExecuteCommand(command: string, parse: string -> Option<real>): (r: Result<Effect, CommandError>)
    ensures ' ' !in command ==> (r.Success? <==> IsNoOpVerb(command))
  {
    Dispatch(JavaSplit(command), parse)
  }

  // ---------------------------------------------------------------------
  // Properties of the dispatch

  /** The sign and axis of each direction token. */
  function Signed(axis: Axis, positive: bool, d: real): Effect {
    Move(axis, if positive then d else -d)
  }

  function DirectionToken(axis: Axis, positive: bool): string {
    (if positive then "+" else "-") + (match axis case Forward => "f" case Sideward => "s" case Upwards => "u")
  }

  /** The six direction tokens are exactly the ones accepted, each moving
      along its own axis with its own sign. */
  lemma DirectionTokens(token: string, d: real)
    ensures Direction(token, d).Some?
            <==> exists axis: Axis, positive: bool :: token == DirectionToken(axis, positive)
    ensures forall axis: Axis, positive: bool :: Direction(DirectionToken(axis, positive), d)
                                                  == Some(Signed(axis, positive, d))
  {
    if Direction(token, d).Some? {
      if token == "+f" { assert token == DirectionToken(Forward, true); }
      else if token == "-f" { assert token == DirectionToken(Forward, false); }
      else if token == "+s" { assert token == DirectionToken(Sideward, true); }
      else if token == "-s" { assert token == DirectionToken(Sideward, false); }
      else if token == "+u" { assert token == DirectionToken(Upwards, true); }
      else { assert token == DirectionToken(Upwards, false); }
    }
    forall axis: Axis, positive: bool
      ensures Direction(DirectionToken(axis, positive), d) == Some(Signed(axis, positive, d))
    {
      var sign := if positive then "+" else "-";
      var letter := match axis case Forward => "f" case Sideward => "s" case Upwards => "u";
      assert DirectionToken(axis, positive) == [sign[0], letter[0]];
    }
  }

  /** `move <dir>` moves by the default distance along the direction's axis,
      with its sign. */
  lemma MoveDefaultDistance(axis: Axis, positive: bool, parse: string -> Option<real>)
    ensures ExecuteCommand(Join(["move", DirectionToken(axis, positive)]), parse)
         == Success(Signed(axis, positive, DEFAULT_DISTANCE))
  {
    SplitJoin(["move", DirectionToken(axis, positive)]);
    DirectionTokens(DirectionToken(axis, positive), DEFAULT_DISTANCE);
  }

  /** `move <dir> <number>` moves by the parsed number, and fails with a bad
      number when it does not parse. */
  lemma MoveGivenDistance(axis: Axis, positive: bool, number: string, parse: string -> Option<real>)
    requires number != "" && SpaceFree(number)
    ensures ExecuteCommand(Join(["move", DirectionToken(axis, positive), number]), parse)
         == match parse(number)
              case Some(d) => Success(Signed(axis, positive, d))
              case None => Failure(BadNumber(number))
  {
    SplitJoin(["move", DirectionToken(axis, positive), number]);
    DirectionTokens(DirectionToken(axis, positive), DEFAULT_DISTANCE);
    if parse(number).Some? {
      DirectionTokens(DirectionToken(axis, positive), parse(number).value);
    }
  }

  /** Opposite direction tokens with the same other tokens move along the
      same axis by opposite distances, or fail alike. */
  lemma OppositeDirections(axis: Axis, rest: seq<string>, parse: string -> Option<real>)
    ensures var plus := Dispatch(["move", DirectionToken(axis, true)] + rest, parse);
            var minus := Dispatch(["move", DirectionToken(axis, false)] + rest, parse);
            && plus.Success? == minus.Success?
            && (plus.Success? ==> plus.value.Move? && minus.value.Move?
                                  && plus.value.axis == minus.value.axis == axis
                                  && minus.value.distance == -plus.value.distance)
  {
    var plus := ["move", DirectionToken(axis, true)] + rest;
    var minus := ["move", DirectionToken(axis, false)] + rest;
    assert plus[0] == "move" && minus[0] == "move";
    assert plus[1] == DirectionToken(axis, true) && minus[1] == DirectionToken(axis, false);
    assert |plus| == |minus|;
    assert |plus| == 3 ==> plus[2] == minus[2];
    var d := if |plus| == 3 then parse(plus[2]) else Some(DEFAULT_DISTANCE);
    if d.Some? {
      DirectionTokens(DirectionToken(axis, true), d.value);
    }
  }

  /** Unless there are exactly three tokens, a move uses the default
      distance, and tokens after the second are ignored. */
  lemma DefaultUnlessThreeTokens(tokens: seq<string>, parse: string -> Option<real>)
    requires |tokens| >= 2 && tokens[0] == "move" && |tokens| != 3
    ensures Dispatch(tokens, parse) == Dispatch(tokens[..2], parse)
    ensures Dispatch(tokens, parse).Success? ==> Dispatch(tokens, parse).value.distance in {DEFAULT_DISTANCE, -DEFAULT_DISTANCE}
  {
    assert tokens[..2][0] == "move" && tokens[..2][1] == tokens[1];
  }

  /** `rotate`, `mode`, `exit` and `save` are accepted and do nothing,
      whatever follows them. */
  lemma NoOpVerbs(tokens: seq<string>, parse: string -> Option<real>)
    requires |tokens| >= 1 && IsNoOpVerb(tokens[0])
    ensures Dispatch(tokens, parse) == Success(NoEffect)
  {
  }

  /** Exactly the move and no-op verbs are known; any other verb fails
      with that verb named. */
  lemma UnknownVerb(tokens: seq<string>, parse: string -> Option<real>)
    requires |tokens| >= 1
    ensures Dispatch(tokens, parse) == Failure(UnknownCommand(tokens[0]))
            <==> tokens[0] != "move" && !IsNoOpVerb(tokens[0])
  {
  }

  /** A move succeeds exactly when it has a direction token that is one of
      the six, and a parsable distance when it has three tokens. */
  lemma MoveSucceeds(tokens: seq<string>, parse: string -> Option<real>)
    requires |tokens| >= 1 && tokens[0] == "move"
    ensures Dispatch(tokens, parse).Success?
            <==> && |tokens| >= 2
                 && Direction(tokens[1], 0.0).Some?
                 && (|tokens| == 3 ==> parse(tokens[2]).Some?)
  {
    if |tokens| >= 2 {
      var d := if |tokens| == 3 then parse(tokens[2]) else Some(DEFAULT_DISTANCE);
      if d.Some? {
        assert Direction(tokens[1], d.value).Some? == Direction(tokens[1], 0.0).Some?;
      }
    }
  }

  // ---------------------------------------------------------------------
  // Worked lines

  /** "move +f 3" moves forward by 3; "move" alone reads a missing second
      token; a single space splits into nothing, so even the verb is
      missing; the empty line is an unknown command. */
  lemma WorkedLines(parse: string -> Option<real>)
    requires parse("3") == Some(3.0)
    ensures ExecuteCommand("move +f 3", parse) == Success(Move(Forward, 3.0))
    ensures ExecuteCommand("move", parse) == Failure(MissingToken(1))
    ensures ExecuteCommand(" ", parse) == Failure(MissingToken(0))
    ensures ExecuteCommand("", parse) == Failure(UnknownCommand(""))
  {
    assert Join(["move", "+f", "3"]) == "move +f 3";
    SplitJoin(["move", "+f", "3"]);
    assert JavaSplit("move") == ["move"];
    assert ' ' in " ";
    assert Fields(" ") == ["", ""];
    assert JavaSplit("") == [""];
  }
}
