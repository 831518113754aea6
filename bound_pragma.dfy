/**
 * The argument splitter of `#pragma bound(...)`: it reads the tokens after
 * the pragma name, splits them at commas outside nested parentheses, and
 * keeps each argument as text. Two handlers use it: the recompiling plugin's,
 * which acts only on the first accepted pragma, and the demo plugin's, which
 * acts on every one.
 */
module BoundPragma {
  import opened Common

  /**
   * A preprocessor token: `Word` is an identifier, a numeric constant or a
   * string literal, with its spelling; `Eod` ends the directive; `OtherToken`
   * is any other kind, keywords such as `sizeof` included.
   */
  datatype Token = LParen | RParen | Comma | Pipe | Word(spelling: string) | Eod | OtherToken

  /** The token `PP.Lex` returns at position `k`; past the end of the directive, `Eod`. */
  function TokenAt(ts: seq<Token>, k: nat): Token {
    if k < |ts| then ts[k] else Eod
  }

  /** The tokens an argument may contain. */
  predicate Allowed(t: Token) {
    t.LParen? || t.RParen? || t.Comma? || t.Word? || t.Pipe?
  }

  function Spaced(cur: string): string {
    if cur == "" then "" else cur + " "
  }

  /**
   * How a token extends the current argument: parentheses and commas are
   * appended as they are; a word or `|` is appended after one space unless
   * the argument is still empty.
   */
  function Append(cur: string, t: Token): string {
    match t
    case LParen => cur + "("
    case RParen => cur + ")"
    case Comma => cur + ","
    case Word(w) => Spaced(cur) + w
    case Pipe => Spaced(cur) + "|"
    case _ => cur
  }

  datatype ScanResult = ScanResult(args: seq<string>, ok: bool)

  /** The loop's variables: `parenDepth`, `CurrentArg` and the arguments pushed so far. */
  datatype ScanState = ScanState(depth: nat, cur: string, args: seq<string>)

  /** One iteration: either the loop goes on, or it ends (`ok` is false on an unexpected token). */
  datatype StepResult = Continue(next: ScanState) | Stop(result: ScanResult)

  function Step(st: ScanState, t: Token): (r: StepResult)
    requires st.depth >= 1
    ensures r.Continue? ==> r.next.depth >= 1
    ensures r.Stop? <==> !Allowed(t) || (t.RParen? && st.depth == 1)
    ensures r.Stop? ==> (r.result.ok <==> t.RParen?)
  {
    match t
    case RParen =>
      if st.depth == 1 then Stop(ScanResult(if st.cur == "" then st.args else st.args + [st.cur], true))
      else Continue(st.(depth := st.depth - 1, cur := Append(st.cur, t)))
    case LParen => Continue(st.(depth := st.depth + 1, cur := Append(st.cur, t)))
    case Comma =>
      if st.depth == 1 then Continue(ScanState(1, "", st.args + [st.cur]))
      else Continue(st.(cur := Append(st.cur, t)))
    case Word(_) => Continue(st.(cur := Append(st.cur, t)))
    case Pipe => Continue(st.(cur := Append(st.cur, t)))
    case _ => Stop(ScanResult(st.args, false))
  }

  /**
   * The loop `while (parenDepth > 0)` over the tokens still to be read; at
   * the end of the directive it reads `Eod`, which is unexpected.
   */
  function Scan(ts: seq<Token>, st: ScanState): ScanResult
    requires st.depth >= 1
    decreases |ts|
  {
    if ts == [] then ScanResult(st.args, false)
    else match Step(st, ts[0])
      case Continue(next) => Scan(ts[1..], next)
      case Stop(result) => result
  }

  datatype PragmaError = ExpectedLParen | UnexpectedToken | WrongArgumentCount

  /**
   * What the splitter leaves behind: the new contents of `Args` (`None`
   * when it returned before clearing them) and the error it reported.
   */
  datatype SplitOutcome = SplitOutcome(args: Option<seq<string>>, error: Option<PragmaError>)

  function Split(ts: seq<Token>): (r: SplitOutcome)
    ensures r.args.None? <==> r.error == Some(ExpectedLParen)
    ensures r.error.None? ==> |r.args.value| == 3
  {
    if TokenAt(ts, 0) != LParen then SplitOutcome(None, Some(ExpectedLParen))
    else
      var s := Scan(ts[1..], ScanState(1, "", []));
      if !s.ok then SplitOutcome(Some(s.args), Some(UnexpectedToken))
      else if |s.args| != 3 then SplitOutcome(Some(s.args), Some(WrongArgumentCount))
      else SplitOutcome(Some(s.args), None)
  }

  /** The splitting loop of `MyPragmaHandler::HandlePragma`, reading the tokens one by one. */
  method SplitArguments(tokens: seq<Token>) returns (r: SplitOutcome)
    ensures r == Split(tokens)
  {
    var tok := TokenAt(tokens, 0);
    if tok != LParen {
      return SplitOutcome(None, Some(ExpectedLParen));
    }
    var currentArg: string := "";
    var parenDepth: nat := 1;
    var args: seq<string> := [];
    var pos: nat := 1;
    while parenDepth > 0
      invariant 1 <= pos <= |tokens| && parenDepth >= 1
      invariant Scan(tokens[pos..], ScanState(parenDepth, currentArg, args)) == Scan(tokens[1..], ScanState(1, "", []))
      decreases |tokens| - pos
    {
      tok := TokenAt(tokens, pos);
      assert pos < |tokens| ==> tokens[pos..][0] == tok && tokens[pos..][1..] == tokens[pos + 1..];
      if tok.RParen? {
        parenDepth := parenDepth - 1;
        if parenDepth == 0 {
          if currentArg != "" {
            args := args + [currentArg];
          }
          break;
        } else {
          currentArg := currentArg + ")";
          pos := pos + 1;
          continue;
        }
      } else if tok.LParen? {
        parenDepth := parenDepth + 1;
        currentArg := currentArg + "(";
        pos := pos + 1;
        continue;
      } else if tok.Comma? {
        if parenDepth == 1 {
          args := args + [currentArg];
          currentArg := "";
        } else {
          currentArg := currentArg + ",";
        }
        pos := pos + 1;
        continue;
      }
      if tok.Word? || tok.Pipe? {
        if currentArg != "" {
          currentArg := currentArg + " ";
        }
        if tok.Word? {
          currentArg := currentArg + tok.spelling;
        } else {
          currentArg := currentArg + "|";
        }
      } else {
        return SplitOutcome(Some(args), Some(UnexpectedToken));
      }
      pos := pos + 1;
    }
    if |args| != 3 {
      return SplitOutcome(Some(args), Some(WrongArgumentCount));
    }
    return SplitOutcome(Some(args), None);
  }

  // ------------------------------------------------------------ reference semantics

  /** The text an argument's tokens add to `cur`, token after token. */
  function TextFrom(cur: string, seg: seq<Token>): string
    decreases |seg|
  {
    if seg == [] then cur else TextFrom(Append(cur, seg[0]), seg[1..])
  }

  /** The text of one argument. */
  function Text(seg: seq<Token>): string {
    TextFrom("", seg)
  }

  function Delta(t: Token): int {
    if t.LParen? then 1 else if t.RParen? then -1 else 0
  }

  /** Opening minus closing parentheses. */
  function Net(s: seq<Token>): int
    decreases |s|
  {
    if s == [] then 0 else Delta(s[0]) + Net(s[1..])
  }

  /**
   * Read from depth `d`, `seg` never reaches a closing parenthesis or a
   * comma at depth 1: it lies inside one argument.
   */
  ghost predicate Nested(seg: seq<Token>, d: int)
    decreases |seg|
  {
    seg != [] ==>
      && Allowed(seg[0])
      && ((seg[0].RParen? || seg[0].Comma?) ==> d >= 2)
      && Nested(seg[1..], d + Delta(seg[0]))
  }

  /** A well-formed argument: allowed tokens, balanced parentheses, no top-level comma. */
  ghost predicate IsArgument(seg: seq<Token>) {
    Nested(seg, 1) && Net(seg) == 0
  }

  /** One token that neither closes the list nor ends an argument only extends the current argument. */
  lemma ScanStep(t: Token, rest: seq<Token>, d: nat, cur: string, args: seq<string>)
    requires d >= 1 && Allowed(t) && ((t.RParen? || t.Comma?) ==> d >= 2)
    ensures d + Delta(t) >= 1
    ensures Scan([t] + rest, ScanState(d, cur, args)) == Scan(rest, ScanState(d + Delta(t), Append(cur, t), args))
  {
    assert ([t] + rest)[1..] == rest;
  }

  /** Scanning a segment inside one argument only extends the current argument's text. */
  lemma {:induction false} ScanSegment(seg: seq<Token>, rest: seq<Token>, d: nat, cur: string, args: seq<string>)
    requires d >= 1 && Nested(seg, d)
    ensures d + Net(seg) >= 1
    ensures Scan(seg + rest, ScanState(d, cur, args)) == Scan(rest, ScanState(d + Net(seg), TextFrom(cur, seg), args))
    decreases |seg|
  {
    if seg == [] {
      assert seg + rest == rest;
    } else {
      var t := seg[0];
      assert seg + rest == [t] + (seg[1..] + rest);
      ScanStep(t, seg[1..] + rest, d, cur, args);
      ScanSegment(seg[1..], rest, d + Delta(t), Append(cur, t), args);
    }
  }

  /** `(`, the arguments separated by commas, `)`. */
  function JoinArguments(args: seq<seq<Token>>): seq<Token>
    decreases |args|
  {
    if args == [] then []
    else if |args| == 1 then args[0]
    else args[0] + [Comma] + JoinArguments(args[1..])
  }

  function Render(args: seq<seq<Token>>): seq<Token> {
    [LParen] + JoinArguments(args) + [RParen]
  }

  /** The texts of the arguments, where a last argument with empty text is not pushed. */
  function PushedTexts(args: seq<seq<Token>>): seq<string>
    requires args != []
    decreases |args|
  {
    if |args| == 1 then (if Text(args[0]) == "" then [] else [Text(args[0])])
    else [Text(args[0])] + PushedTexts(args[1..])
  }

  lemma ScanUnexpected(t: Token, rest: seq<Token>, st: ScanState)
    requires st.depth >= 1 && !Allowed(t)
    ensures Scan([t] + rest, st) == ScanResult(st.args, false)
  {
  }

  /** The closing parenthesis at depth 1 pushes the current argument unless it is empty. */
  lemma ScanClose(rest: seq<Token>, cur: string, args: seq<string>)
    ensures Scan([RParen] + rest, ScanState(1, cur, args)) == ScanResult(if cur == "" then args else args + [cur], true)
  {
  }

  /** A comma at depth 1 pushes the current argument, even an empty one, and starts the next. */
  lemma ScanComma(rest: seq<Token>, cur: string, args: seq<string>)
    ensures Scan([Comma] + rest, ScanState(1, cur, args)) == Scan(rest, ScanState(1, "", args + [cur]))
  {
    assert ([Comma] + rest)[1..] == rest;
  }

  /** One argument and the comma after it push the argument's text. */
  lemma ScanArgumentThenComma(a: seq<Token>, rest: seq<Token>, acc: seq<string>)
    requires IsArgument(a)
    ensures Scan(a + ([Comma] + rest), ScanState(1, "", acc)) == Scan(rest, ScanState(1, "", acc + [Text(a)]))
  {
    ScanSegment(a, [Comma] + rest, 1, "", acc);
    ScanComma(rest, Text(a), acc);
  }

  lemma ArgumentsTail(args: seq<seq<Token>>)
    requires args != [] && forall i :: 0 <= i < |args| ==> IsArgument(args[i])
    ensures forall i :: 0 <= i < |args[1..]| ==> IsArgument(args[1..][i])
  {
    forall i | 0 <= i < |args[1..]| ensures IsArgument(args[1..][i]) { assert args[1..][i] == args[i + 1]; }
  }

  lemma {:induction false} ScanArguments(args: seq<seq<Token>>, rest: seq<Token>, acc: seq<string>)
    requires args != [] && forall i :: 0 <= i < |args| ==> IsArgument(args[i])
    ensures Scan(JoinArguments(args) + [RParen] + rest, ScanState(1, "", acc)) == ScanResult(acc + PushedTexts(args), true)
    decreases |args|
  {
    var a := args[0];
    assert IsArgument(a);
    if |args| == 1 {
      assert JoinArguments(args) + [RParen] + rest == a + ([RParen] + rest);
      ScanSegment(a, [RParen] + rest, 1, "", acc);
      ScanClose(rest, Text(a), acc);
    } else {
      var tail := JoinArguments(args[1..]) + [RParen] + rest;
      assert JoinArguments(args) + [RParen] + rest == a + ([Comma] + tail);
      ScanArgumentThenComma(a, tail, acc);
      ArgumentsTail(args);
      ScanArguments(args[1..], rest, acc + [Text(a)]);
      assert acc + [Text(a)] + PushedTexts(args[1..]) == acc + PushedTexts(args);
    }
  }

  /**
   * Round trip: splitting `(a1, ..., an)` gives back the texts of the
   * arguments (a last empty one is not pushed), and it succeeds iff that
   * leaves exactly three.
   */
  lemma SplitRender(args: seq<seq<Token>>)
    requires forall i :: 0 <= i < |args| ==> IsArgument(args[i])
    ensures var texts := if args == [] then [] else PushedTexts(args);
      Split(Render(args)) == SplitOutcome(Some(texts), if |texts| == 3 then None else Some(WrongArgumentCount))
  {
    var ts := Render(args);
    assert TokenAt(ts, 0) == LParen;
    assert ts[1..] == JoinArguments(args) + [RParen] + [];
    if args == [] {
      assert ts[1..] == [RParen] + [];
    } else {
      ScanArguments(args, [], []);
      assert [] + PushedTexts(args) == PushedTexts(args);
    }
  }

  /** With three arguments whose last is not empty, the pragma is accepted with their texts. */
  lemma ThreeArgumentsAreAccepted(a: seq<Token>, b: seq<Token>, c: seq<Token>)
    requires IsArgument(a) && IsArgument(b) && IsArgument(c) && Text(c) != ""
    ensures Split(Render([a, b, c])) == SplitOutcome(Some([Text(a), Text(b), Text(c)]), None)
  {
    assert [a, b, c][1..] == [b, c];
    assert [b, c][1..] == [c];
    assert PushedTexts([c]) == [Text(c)];
    assert PushedTexts([b, c]) == [Text(b), Text(c)];
    assert PushedTexts([a, b, c]) == [Text(a), Text(b), Text(c)];
    SplitRender([a, b, c]);
  }

  /** An argument of plain words. */
  function Words(ws: seq<string>): seq<Token>
    decreases |ws|
  {
    if ws == [] then [] else [Word(ws[0])] + Words(ws[1..])
  }

  function JoinWithSpaces(ws: seq<string>): string
    decreases |ws|
  {
    if ws == [] then "" else if |ws| == 1 then ws[0] else ws[0] + " " + JoinWithSpaces(ws[1..])
  }

  /** Words are joined with single spaces. */
  lemma {:induction false} TextOfWords(cur: string, ws: seq<string>)
    requires forall k :: 0 <= k < |ws| ==> ws[k] != ""
    ensures TextFrom(cur, Words(ws)) ==
      if ws == [] then cur else if cur == "" then JoinWithSpaces(ws) else cur + " " + JoinWithSpaces(ws)
    decreases |ws|
  {
    if ws != [] {
      var t := Words(ws);
      assert t[0] == Word(ws[0]) && t[1..] == Words(ws[1..]);
      var next := Append(cur, Word(ws[0]));
      assert next == if cur == "" then ws[0] else cur + " " + ws[0];
      TextOfWords(next, ws[1..]);
      if |ws| > 1 {
        assert next != "";
        assert cur != "" ==> next + " " + JoinWithSpaces(ws[1..]) == cur + " " + (ws[0] + " " + JoinWithSpaces(ws[1..]));
      }
    }
  }

  /** Without parentheses and commas, any run of words and `|` is one argument. */
  lemma {:induction false} FlatIsArgument(t: seq<Token>)
    requires forall k :: 0 <= k < |t| ==> t[k].Word? || t[k].Pipe?
    ensures IsArgument(t)
    decreases |t|
  {
    if t != [] {
      FlatIsArgument(t[1..]);
    }
  }

  /**
   * Read from depth `d`, the rest of the directive never closes the list:
   * only a closing parenthesis at depth 1 would.
   */
  ghost predicate NeverCloses(rest: seq<Token>, d: int)
    decreases |rest|
  {
    rest != [] ==>
      && Allowed(rest[0])
      && (rest[0].RParen? ==> d >= 2)
      && NeverCloses(rest[1..], d + Delta(rest[0]))
  }

  /** Reaching the end of the directive before the closing parenthesis is an unexpected-token error. */
  lemma {:induction false} UnclosedIsUnexpected(ts: seq<Token>, d: nat, cur: string, args: seq<string>)
    requires d >= 1 && NeverCloses(ts, d)
    ensures !Scan(ts, ScanState(d, cur, args)).ok
    decreases |ts|
  {
    if ts != [] {
      var t := ts[0];
      assert ts == [t] + ts[1..];
      if t.Comma? && d == 1 {
        ScanComma(ts[1..], cur, args);
        UnclosedIsUnexpected(ts[1..], 1, "", args + [cur]);
      } else {
        ScanStep(t, ts[1..], d, cur, args);
        UnclosedIsUnexpected(ts[1..], d + Delta(t), Append(cur, t), args);
      }
    }
  }

  /** `#pragma bound(` followed by anything that never closes the list is rejected. */
  lemma UnclosedPragmaIsRejected(rest: seq<Token>)
    requires NeverCloses(rest, 1)
    ensures Split([LParen] + rest).error == Some(UnexpectedToken)
  {
    var ts := [LParen] + rest;
    assert ts[1..] == rest;
    UnclosedIsUnexpected(rest, 1, "", []);
  }

  /**
   * A token that may not appear in an argument stops the split with an
   * error, also inside nested parentheses; what was pushed before stays.
   */
  lemma UnexpectedTokenStops(seg: seq<Token>, t: Token, rest: seq<Token>, d: nat, cur: string, args: seq<string>)
    requires d >= 1 && Nested(seg, d) && !Allowed(t)
    ensures Scan(seg + [t] + rest, ScanState(d, cur, args)) == ScanResult(args, false)
  {
    assert seg + [t] + rest == seg + ([t] + rest);
    ScanSegment(seg, [t] + rest, d, cur, args);
    ScanUnexpected(t, rest, ScanState(d + Net(seg), TextFrom(cur, seg), args));
  }

  lemma {:induction false} TextFromAppend(cur: string, s1: seq<Token>, s2: seq<Token>)
    ensures TextFrom(cur, s1 + s2) == TextFrom(TextFrom(cur, s1), s2)
    decreases |s1|
  {
    if s1 == [] {
      assert s1 + s2 == s2;
    } else {
      assert (s1 + s2)[0] == s1[0] && (s1 + s2)[1..] == s1[1..] + s2;
      TextFromAppend(Append(cur, s1[0]), s1[1..], s2);
    }
  }

  /**
   * A parenthesised group of words, as in the `(x)` of `buf(x)`, is kept
   * with its parentheses; the first word inside gets a space after `(`.
   */
  lemma GroupText(cur: string, ws: seq<string>)
    requires ws != [] && forall k :: 0 <= k < |ws| ==> ws[k] != ""
    ensures TextFrom(cur, [LParen] + Words(ws) + [RParen]) == cur + "( " + JoinWithSpaces(ws) + ")"
  {
    TextFromAppend(cur, [LParen] + Words(ws), [RParen]);
    TextFromAppend(cur, [LParen], Words(ws));
    assert TextFrom(cur, [LParen]) == cur + "(";
    TextOfWords(cur + "(", ws);
    assert cur + "(" + " " + JoinWithSpaces(ws) + ")" == cur + "( " + JoinWithSpaces(ws) + ")";
  }

  // ------------------------------------------------------------ the two handlers

  /** How one `HandlePragma` call ended. */
  datatype PragmaOutcome = AlreadyChecked | Rejected(error: PragmaError) | Accepted

  function OutcomeOf(r: SplitOutcome): PragmaOutcome {
    if r.error.Some? then Rejected(r.error.value) else Accepted
  }

  /**
   * The recompiling plugin's handler, with its globals `BoundIsChecked` and
   * `Args`: after the first accepted pragma, every later one returns at once.
   */
  class BoundPragmaHandler {
    var boundIsChecked: bool
    var args: seq<string>

    /** Once a pragma has been accepted, `Args` holds its three arguments. */
    ghost predicate Valid()
      reads this
    {
      boundIsChecked ==> |args| == 3
    }

    constructor ()
      ensures Valid() && !boundIsChecked && args == []
    {
      boundIsChecked := false;
      args := [];
    }

    method HandlePragma(tokens: seq<Token>) returns (outcome: PragmaOutcome)
      requires Valid()
      modifies this
      ensures Valid()
      ensures old(boundIsChecked) ==> outcome == AlreadyChecked && boundIsChecked && args == old(args)
      ensures !old(boundIsChecked) ==>
        && outcome == OutcomeOf(Split(tokens))
        && args == (if Split(tokens).args.Some? then Split(tokens).args.value else old(args))
        && (boundIsChecked <==> outcome == Accepted)
    {
      if boundIsChecked {
        return AlreadyChecked;
      }
      var r := SplitArguments(tokens);
      if r.args.Some? {
        args := r.args.value;
      }
      outcome := OutcomeOf(r);
      if outcome == Accepted {
        boundIsChecked := true;
      }
    }
  }

  /** Once a pragma has been accepted, any further pragma leaves the arguments as they were. */
  method OnlyTheFirstPragmaCounts(h: BoundPragmaHandler, first: seq<Token>, second: seq<Token>) returns (o1: PragmaOutcome, o2: PragmaOutcome)
    requires h.Valid() && !h.boundIsChecked
    modifies h
    ensures o1 == OutcomeOf(Split(first))
    ensures o1 == Accepted ==> o2 == AlreadyChecked && h.args == Split(first).args.value && |h.args| == 3
  {
    o1 := h.HandlePragma(first);
    o2 := h.HandlePragma(second);
  }

  /** The demo plugin's handler: no guard, so every pragma splits again and replaces `Args`. */
  class DemoPragmaHandler {
    var args: seq<string>

    constructor ()
      ensures args == []
    {
      args := [];
    }

    method HandlePragma(tokens: seq<Token>) returns (outcome: PragmaOutcome)
      modifies this
      ensures outcome == OutcomeOf(Split(tokens))
      ensures args == (if Split(tokens).args.Some? then Split(tokens).args.value else old(args))
    {
      var r := SplitArguments(tokens);
      if r.args.Some? {
        args := r.args.value;
      }
      outcome := OutcomeOf(r);
    }
  }
}
