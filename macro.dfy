/**
 * The `rhtml!` macro's front end (rust_html_macros/src/lib.rs): the
 * brace-depth scanner `parse_rhtml`, which splits a template into literal
 * HTML parts and Rust slots, and `expand`, which turns its output into the
 * compiled artifact: one (literal, slot) pair per slot plus a literal tail.
 *
 * Template syntax: `{{` and `}}` outside a slot stand for a literal brace;
 * `{ … }` is a slot, whose text runs to the matching `}` and keeps any
 * nested braces verbatim.
 */
module Macro {
  import opened Text
  import opened Diagnostics

  const UnexpectedCloseMessage := "Unexpected close bracket '}', need an open bracket first (or '}}' to escape)"
  const MissingCloseMessage := "Missing close bracket '}'"

  /** The scanner's variables: `depth`, `html_buffer`, `rust_buffer`,
      `html_parts` and `rust_evaluators`. */
  datatype Scanner = Scanner(depth: int, html: string, rust: string, parts: seq<string>, evaluators: seq<Evaluator>)

  const Start := Scanner(0, "", "", [], [])

  /** A successful scan: the literal parts and one evaluator per slot. */
  datatype Lexed = Lexed(parts: seq<string>, evaluators: seq<Evaluator>)

  /** The outcome of scanning at one position: the scanner after it and the
      number of characters consumed (2 for an escaped brace), or an error. */
  datatype Next = Advance(scanner: Scanner, width: nat) | Stop(error: Diagnostic)

  /** Closing a slot: its text becomes tokens, which must be an identifier,
      a literal or an expression. */
  function CloseSlot(syn: RustSyntax, code: string, htmlContext: string): (r: Result<Evaluator>)
    ensures r.Ok? ==> r.value.source == code
    ensures AllWhitespace(code) ==> r == Ok(EmptyString(code))
    ensures !AllWhitespace(code) ==>
      (r.Ok? <==> syn.tokenizes(code) && (syn.isIdent(code) || syn.isLiteral(code) || syn.isExpr(code)))
    ensures !AllWhitespace(code) && r.Ok? ==> r.value == Tokens(code)
    ensures !AllWhitespace(code) && !syn.tokenizes(code) ==>
      r == Err(CompileError("failed to parse rust tokens '" + code + "' inside brackets '{}'"))
    ensures !AllWhitespace(code) && syn.tokenizes(code) && r.Err? ==>
      r.error == SynError(WrapMessage(NotValidPrefix, code, htmlContext))
  {
    match InnerRustToTokens(syn, code)
    case Err(e) => Err(e)
    case Ok(ev) =>
      match ValidateInnerRust(syn, ev, code, htmlContext)
      case Fail(e) => Err(e)
      case Pass => Ok(ev)
  }

  /** The check a slot goes through when it closes: from the slot's text and
      the literal text pending before it, an evaluator or an error. */
  type SlotCheck = (string, string) -> Result<Evaluator>

  /** The check `parse_rhtml` performs: `inner_rust_to_tokens`, then
      `validate_inner_rust`. */
  function Checker(syn: RustSyntax): SlotCheck {
    (code, context) => CloseSlot(syn, code, context)
  }

  /** A check whose evaluators are made from the slot's own text. */
  ghost predicate Faithful(check: SlotCheck) {
    forall code, context :: check(code, context).Ok? ==> check(code, context).value.source == code
  }

  lemma CheckerFaithful(syn: RustSyntax)
    ensures Faithful(Checker(syn))
  {
    forall code, context | Checker(syn)(code, context).Ok?
      ensures Checker(syn)(code, context).value.source == code
    {
      assert Checker(syn)(code, context) == CloseSlot(syn, code, context);
    }
  }

  function Delta(c: char): int {
    if c == '{' then 1 else if c == '}' then -1 else 0
  }

  /** One iteration of the scanning loop, at position `i`. */
  function Step(check: SlotCheck, input: string, i: nat, st: Scanner): (r: Next)
    requires i < |input|
    ensures r.Advance? ==> 1 <= r.width <= 2 && i + r.width <= |input|
  {
    var c := input[i];
    var rustMode := st.depth > 0;
    if !rustMode && (c == '{' || c == '}') && i + 1 < |input| && input[i + 1] == c then
      Advance(st.(html := st.html + [c]), 2)
    else
      var depth := st.depth + Delta(c);
      if depth < 0 then Stop(CompileError(UnexpectedCloseMessage))
      else
        var kept := if c == '{' then depth > 1 else if c == '}' then depth > 0 else rustMode;
        var html := if !rustMode && c != '{' && c != '}' then st.html + [c] else st.html;
        var rust := if kept then st.rust + [c] else st.rust;
        if !rustMode && depth > 0 then
          Advance(Scanner(depth, "", rust, st.parts + [html], st.evaluators), 1)
        else if rustMode && depth == 0 then
          match check(rust, html)
          case Err(e) => Stop(e)
          case Ok(ev) => Advance(Scanner(depth, html, "", st.parts, st.evaluators + [ev]), 1)
        else
          Advance(Scanner(depth, html, rust, st.parts, st.evaluators), 1)
  }

  /** The scan from position `i` on, and the checks after the loop. */
  function Run(check: SlotCheck, input: string, i: nat, st: Scanner): Result<Lexed>
    requires i <= |input|
    decreases |input| - i, 1
  {
    if i == |input| then
      if st.depth > 0 then Err(CompileError(MissingCloseMessage))
      else Ok(Lexed(st.parts + [st.html], st.evaluators))
    else
      Continue(check, input, i, st)
  }

  /** Takes one step of the scan at position `i`: stops on an error,
      otherwise scans on from just after the characters the step consumed. */
  function Continue(check: SlotCheck, input: string, i: nat, st: Scanner): Result<Lexed>
    requires i < |input|
    decreases |input| - i, 0
  {
    match Step(check, input, i, st)
    case Stop(e) => Err(e)
    case Advance(st', width) => Run(check, input, i + width, st')
  }

  /** A whole scan, with any slot check. */
  function Scan(check: SlotCheck, input: string): Result<Lexed> {
    Run(check, input, 0, Start)
  }

  /** The scan `parse_rhtml` performs. */
  function Lex(syn: RustSyntax, input: string): Result<Lexed> {
    Scan(Checker(syn), input)
  }

  /** `parse_rhtml`: one left-to-right pass over the characters. */
  method ParseRhtml(syn: RustSyntax, input: string) returns (r: Result<Lexed>)
    ensures r == Lex(syn, input)
  {
    var skipNext := false;
    var depth := 0;
    var htmlBuffer: string := [];
    var rustBuffer: string := [];
    var htmlParts: seq<string> := [];
    var rustEvaluators: seq<Evaluator> := [];

    for i := 0 to |input|
      invariant skipNext ==> i < |input|
      invariant Lex(syn, input) ==
                Run(Checker(syn), input, if skipNext then i + 1 else i,
                    Scanner(depth, htmlBuffer, rustBuffer, htmlParts, rustEvaluators))
    {
      if skipNext {
        skipNext := false;
        continue;
      }
      RunUnfold(Checker(syn), input, i, Scanner(depth, htmlBuffer, rustBuffer, htmlParts, rustEvaluators));
      var token := input[i];
      var peek: Option<char> := if i + 1 < |input| then Some(input[i + 1]) else None;
      var rustMode := depth > 0;
      if token == '{' {
        // an escaped bracket
        if !rustMode && peek == Some('{') {
          htmlBuffer := htmlBuffer + ['{'];
          skipNext := true;
          continue;
        }
        depth := depth + 1;
        if depth > 1 {
          rustBuffer := rustBuffer + ['{'];
        }
      } else if token == '}' {
        // an escaped bracket
        if !rustMode && peek == Some('}') {
          htmlBuffer := htmlBuffer + ['}'];
          skipNext := true;
          continue;
        }
        depth := depth - 1;
        if depth > 0 {
          rustBuffer := rustBuffer + ['}'];
        }
        if depth < 0 {
          return Err(CompileError(UnexpectedCloseMessage));
        }
      } else {
        if rustMode {
          rustBuffer := rustBuffer + [token];
        } else {
          htmlBuffer := htmlBuffer + [token];
        }
      }

      var changeToRust := !rustMode && depth > 0;
      var changeToHtml := rustMode && depth == 0;

      // leaving HTML: the literal buffer becomes a part
      if changeToRust {
        htmlParts := htmlParts + [htmlBuffer];
        htmlBuffer := [];
      }

      // leaving Rust: the slot is checked and becomes an evaluator
      if changeToHtml {
        var rustString := rustBuffer;
        var evaluator: Evaluator;
        match InnerRustToTokens(syn, rustString) {
          case Ok(tokens) =>
            var htmlContext := htmlBuffer;
            var validRust := ValidateInnerRust(syn, tokens, rustString, htmlContext);
            match validRust {
              case Pass => evaluator := tokens;
              case Fail(innerErr) => return Err(innerErr);
            }
          case Err(err) => return Err(err);
        }
        rustEvaluators := rustEvaluators + [evaluator];
        rustBuffer := [];
      }
    }

    if depth > 0 {
      return Err(CompileError(MissingCloseMessage));
    }
    htmlParts := htmlParts + [htmlBuffer];
    r := Ok(Lexed(htmlParts, rustEvaluators));
  }


  lemma RunUnfold(check: SlotCheck, input: string, i: nat, st: Scanner)
    requires i < |input|
    ensures Run(check, input, i, st) ==
            match Step(check, input, i, st)
            case Stop(e) => Err(e)
            case Advance(st', width) => Run(check, input, i + width, st')
  {
  }

  lemma SliceSnoc<T>(s: seq<T>, i: nat)
    requires i < |s|
    ensures s[..i + 1] == s[..i] + [s[i]]
  {
  }

  lemma SplitLast<T>(s: seq<T>)
    requires |s| > 0
    ensures s == s[..|s| - 1] + [s[|s| - 1]]
  {
  }

  lemma AppendCons<T>(a: seq<T>, s: seq<T>)
    requires |s| > 0
    ensures a + [s[0]] + s[1..] == a + s
  {
  }

  lemma Assoc<T>(a: seq<T>, b: seq<T>, c: seq<T>)
    ensures (a + b) + c == a + (b + c)
  {
  }

  // ---------------------------------------------------------------------
  // What a scan reads: literal text with doubled brackets, and slots.
  // ---------------------------------------------------------------------

  /** The template text standing for one literal character. */
  function EscapeChar(c: char): string {
    if c == '{' then "{{" else if c == '}' then "}}" else [c]
  }

  /** The template text standing for a literal part: every bracket doubled. */
  function Escape(h: string): string
    decreases |h|
  {
    if h == [] then [] else EscapeChar(h[0]) + Escape(h[1..])
  }

  lemma {:induction false} EscapeSnoc(h: string, c: char)
    ensures Escape(h + [c]) == Escape(h) + EscapeChar(c)
    decreases |h|
  {
    if h == [] {
      assert Escape([c]) == EscapeChar(c) + [];
    } else {
      assert (h + [c])[1..] == h[1..] + [c];
      EscapeSnoc(h[1..], c);
    }
  }

  /** The depth after reading `s` inside a slot, starting at depth `d`. */
  function Walk(s: string, d: int): int
    decreases |s|
  {
    if s == [] then d else Walk(s[1..], d + Delta(s[0]))
  }

  /** Reading `s` from depth `d` never brings the depth down to 0. */
  predicate Open(s: string, d: int)
    decreases |s|
  {
    d > 0 && (s == [] || Open(s[1..], d + Delta(s[0])))
  }

  lemma {:induction false} WalkSnoc(s: string, d: int, c: char)
    ensures Walk(s + [c], d) == Walk(s, d) + Delta(c)
    ensures Open(s + [c], d) <==> Open(s, d) && Walk(s, d) + Delta(c) > 0
    decreases |s|
  {
    if s != [] {
      assert (s + [c])[1..] == s[1..] + [c];
      WalkSnoc(s[1..], d + Delta(s[0]), c);
    }
  }

  lemma {:induction false} OpenWalk(s: string, d: int)
    requires Open(s, d)
    ensures Walk(s, d) > 0
    decreases |s|
  {
    if s != [] {
      OpenWalk(s[1..], d + Delta(s[0]));
    }
  }

  /** The text read so far inside a slot that is now at depth `depth`: the
      depth never dropped to 0, and the text does not start with `{` (which
      would have made the opening bracket an escape). */
  predicate SlotPrefix(code: string, depth: int) {
    Open(code, 1) && Walk(code, 1) == depth && (code == [] || code[0] != '{')
  }

  /** Text that a whole slot can hold: its brackets are balanced. */
  predicate SlotText(code: string) {
    SlotPrefix(code, 1)
  }

  /** An evaluator that closing a slot over its own source text yields. */
  predicate GoodSlot(check: SlotCheck, ev: Evaluator) {
    SlotText(ev.source) && check(ev.source, "") == Ok(ev)
  }

  predicate AllGood(check: SlotCheck, evs: seq<Evaluator>) {
    forall k :: 0 <= k < |evs| ==> GoodSlot(check, evs[k])
  }

  /** A slot as it is written in a template. */
  function Bracketed(code: string): string {
    ['{'] + code + ['}']
  }

  lemma AppendBracketed(a: string, code: string)
    ensures a + ['{'] + code + ['}'] == a + Bracketed(code)
  {
  }

  /** A literal part followed by its slot. */
  function Piece(p: string, ev: Evaluator): string {
    Escape(p) + Bracketed(ev.source)
  }

  /** Literal parts, each followed by its slot. */
  function Closed(parts: seq<string>, evs: seq<Evaluator>): string
    requires |parts| == |evs|
    decreases |evs|
  {
    if evs == [] then [] else Piece(parts[0], evs[0]) + Closed(parts[1..], evs[1..])
  }

  lemma {:induction false} ClosedSnoc(parts: seq<string>, evs: seq<Evaluator>, p: string, ev: Evaluator)
    requires |parts| == |evs|
    ensures Closed(parts + [p], evs + [ev]) == Closed(parts, evs) + Piece(p, ev)
    decreases |evs|
  {
    if evs != [] {
      var ps, es := parts + [p], evs + [ev];
      assert ps[1..] == parts[1..] + [p];
      assert es[1..] == evs[1..] + [ev];
      ClosedSnoc(parts[1..], evs[1..], p, ev);
    } else {
      assert Closed([p], [ev]) == Piece(p, ev) + [];
    }
  }

  /** The template text a scan result stands for: the parts with their
      brackets doubled, interleaved with the slots in brackets. */
  function Unlex(parts: seq<string>, evs: seq<Evaluator>): string
    requires |parts| == |evs| + 1
  {
    Closed(parts[..|evs|], evs) + Escape(parts[|evs|])
  }

  lemma UnlexCons(parts: seq<string>, evs: seq<Evaluator>)
    requires |parts| == |evs| + 1 && |evs| > 0
    ensures Unlex(parts, evs) == Piece(parts[0], evs[0]) + Unlex(parts[1..], evs[1..])
  {
    assert parts[..|evs|][1..] == parts[1..][..|evs| - 1];
  }

  // ---------------------------------------------------------------------
  // The scanning step, case by case.
  // ---------------------------------------------------------------------

  lemma StepEscape(check: SlotCheck, input: string, i: nat, st: Scanner)
    requires st.depth == 0 && i + 1 < |input|
    requires (input[i] == '{' || input[i] == '}') && input[i + 1] == input[i]
    ensures Step(check, input, i, st) == Advance(st.(html := st.html + [input[i]]), 2)
  {
  }

  lemma StepLiteral(check: SlotCheck, input: string, i: nat, st: Scanner)
    requires st.depth == 0 && i < |input| && input[i] != '{' && input[i] != '}'
    ensures Step(check, input, i, st) == Advance(st.(html := st.html + [input[i]]), 1)
  {
  }

  lemma StepOpen(check: SlotCheck, input: string, i: nat, st: Scanner)
    requires st.depth == 0 && i < |input| && input[i] == '{'
    requires i + 1 == |input| || input[i + 1] != '{'
    ensures Step(check, input, i, st) == Advance(Scanner(1, [], st.rust, st.parts + [st.html], st.evaluators), 1)
  {
  }

  lemma StepStray(check: SlotCheck, input: string, i: nat, st: Scanner)
    requires st.depth == 0 && i < |input| && input[i] == '}'
    requires i + 1 == |input| || input[i + 1] != '}'
    ensures Step(check, input, i, st) == Stop(CompileError(UnexpectedCloseMessage))
  {
  }

  lemma StepInside(check: SlotCheck, input: string, i: nat, st: Scanner)
    requires st.depth > 0 && i < |input| && st.depth + Delta(input[i]) > 0
    ensures Step(check, input, i, st) ==
            Advance(st.(depth := st.depth + Delta(input[i]), rust := st.rust + [input[i]]), 1)
  {
  }

  lemma StepClose(check: SlotCheck, input: string, i: nat, st: Scanner)
    requires st.depth == 1 && i < |input| && input[i] == '}'
    ensures Step(check, input, i, st) ==
            match check(st.rust, st.html)
            case Err(e) => Stop(e)
            case Ok(ev) => Advance(Scanner(0, st.html, [], st.parts, st.evaluators + [ev]), 1)
  {
  }

  // ---------------------------------------------------------------------
  // The scan's invariant, and that every step keeps it.
  // ---------------------------------------------------------------------

  /** What the scanner's variables hold after reading `input[..i]`. Outside a
      slot, the parts and slots read so far and the pending literal text
      spell `input[..i]`. Inside one, the part before the slot is flushed,
      the literal buffer is empty, and the expression buffer holds the slot
      text read so far, at the depth its brackets give. */
  predicate Scanned(check: SlotCheck, input: string, i: nat, st: Scanner)
    requires i <= |input|
  {
    st.depth >= 0 && AllGood(check, st.evaluators) &&
    if st.depth == 0 then
      |st.parts| == |st.evaluators| && st.rust == [] &&
      input[..i] == Closed(st.parts, st.evaluators) + Escape(st.html)
    else
      |st.parts| == |st.evaluators| + 1 && st.html == [] &&
      SlotPrefix(st.rust, st.depth) &&
      (st.rust == [] && i < |input| ==> input[i] != '{') &&
      input[..i] == Unlex(st.parts, st.evaluators) + ['{'] + st.rust
  }

  lemma KeepLiteral(check: SlotCheck, input: string, i: nat, j: nat, st: Scanner, c: char)
    requires i <= j <= |input| && st.depth == 0 && Scanned(check, input, i, st)
    requires input[..j] == input[..i] + EscapeChar(c)
    ensures Scanned(check, input, j, st.(html := st.html + [c]))
  {
    var done := Closed(st.parts, st.evaluators);
    EscapeSnoc(st.html, c);
    calc {
      input[..j];
      (done + Escape(st.html)) + EscapeChar(c);
      { Assoc(done, Escape(st.html), EscapeChar(c)); }
      done + (Escape(st.html) + EscapeChar(c));
      done + Escape(st.html + [c]);
    }
  }

  lemma KeepOpen(check: SlotCheck, input: string, i: nat, st: Scanner)
    requires i < |input| && st.depth == 0 && Scanned(check, input, i, st)
    requires input[i] == '{' && (i + 1 == |input| || input[i + 1] != '{')
    ensures Scanned(check, input, i + 1, Scanner(1, [], st.rust, st.parts + [st.html], st.evaluators))
  {
    var ps := st.parts + [st.html];
    assert ps[..|st.evaluators|] == st.parts;
    SliceSnoc(input, i);
  }

  lemma KeepInside(check: SlotCheck, input: string, i: nat, st: Scanner)
    requires i < |input| && st.depth > 0 && Scanned(check, input, i, st)
    requires st.depth + Delta(input[i]) > 0
    ensures Scanned(check, input, i + 1, st.(depth := st.depth + Delta(input[i]), rust := st.rust + [input[i]]))
  {
    WalkSnoc(st.rust, 1, input[i]);
    SliceSnoc(input, i);
    Assoc(Unlex(st.parts, st.evaluators) + ['{'], st.rust, [input[i]]);
  }

  lemma KeepClose(check: SlotCheck, input: string, i: nat, st: Scanner, ev: Evaluator)
    requires Faithful(check)
    requires i < |input| && st.depth == 1 && Scanned(check, input, i, st)
    requires input[i] == '}' && check(st.rust, []) == Ok(ev)
    ensures Scanned(check, input, i + 1, Scanner(0, [], [], st.parts, st.evaluators + [ev]))
  {
    var n := |st.evaluators|;
    var done := Closed(st.parts[..n], st.evaluators);
    var p := st.parts[n];
    SplitLast(st.parts);
    ClosedSnoc(st.parts[..n], st.evaluators, p, ev);
    calc {
      input[..i + 1];
      { SliceSnoc(input, i); }
      input[..i] + ['}'];
      ((done + Escape(p)) + ['{'] + st.rust) + ['}'];
      { AppendBracketed(done + Escape(p), st.rust); }
      (done + Escape(p)) + Bracketed(st.rust);
      { Assoc(done, Escape(p), Bracketed(st.rust)); }
      done + (Escape(p) + Bracketed(st.rust));
      { assert ev.source == st.rust; }
      done + Piece(p, ev);
      Closed(st.parts, st.evaluators + [ev]);
      Closed(st.parts, st.evaluators + [ev]) + Escape([]);
    }
    assert GoodSlot(check, ev);
  }

  lemma StepKeepsScanned(check: SlotCheck, input: string, i: nat, st: Scanner)
    requires Faithful(check)
    requires i < |input| && Scanned(check, input, i, st)
    requires Step(check, input, i, st).Advance?
    ensures var next := Step(check, input, i, st);
            Scanned(check, input, i + next.width, next.scanner)
  {
    var c := input[i];
    if st.depth == 0 {
      if (c == '{' || c == '}') && i + 1 < |input| && input[i + 1] == c {
        StepEscape(check, input, i, st);
        assert input[..i + 2] == input[..i] + EscapeChar(c);
        KeepLiteral(check, input, i, i + 2, st, c);
      } else if c == '{' {
        StepOpen(check, input, i, st);
        KeepOpen(check, input, i, st);
      } else if c != '}' {
        StepLiteral(check, input, i, st);
        assert input[..i + 1] == input[..i] + EscapeChar(c);
        KeepLiteral(check, input, i, i + 1, st, c);
      }
    } else if st.depth + Delta(c) > 0 {
      StepInside(check, input, i, st);
      KeepInside(check, input, i, st);
    } else {
      StepClose(check, input, i, st);
      KeepClose(check, input, i, st, Step(check, input, i, st).scanner.evaluators[|st.evaluators|]);
    }
  }

  /** Every successful scan from a state that satisfies the invariant has
      one more part than slots, only well-formed slots, and spells out the
      input. */
  lemma {:induction false} RunScanned(check: SlotCheck, input: string, i: nat, st: Scanner)
    requires Faithful(check)
    requires i <= |input| && Scanned(check, input, i, st)
    requires Run(check, input, i, st).Ok?
    ensures var out := Run(check, input, i, st).value;
            |out.parts| == |out.evaluators| + 1 && AllGood(check, out.evaluators) &&
            Unlex(out.parts, out.evaluators) == input
    decreases |input| - i
  {
    if i == |input| {
      assert (st.parts + [st.html])[..|st.evaluators|] == st.parts;
      assert input[..i] == input;
    } else {
      var next := Step(check, input, i, st);
      StepKeepsScanned(check, input, i, st);
      RunScanned(check, input, i + next.width, next.scanner);
    }
  }

  /** Lexing then unlexing: a successful scan of `input` gives one more
      part than slots (so `expand`'s `pop` finds a tail and its count check
      passes), each slot is well formed, and writing the parts back with
      doubled brackets around the bracketed slots reproduces `input`. */
  lemma LexRoundTrip(check: SlotCheck, input: string)
    requires Faithful(check)
    requires Scan(check, input).Ok?
    ensures var out := Scan(check, input).value;
            |out.parts| == |out.evaluators| + 1 && AllGood(check, out.evaluators) &&
            Unlex(out.parts, out.evaluators) == input
  {
    assert Scanned(check, input, 0, Start) by {
      assert input[..0] == Closed([], []) + Escape([]);
    }
    RunScanned(check, input, 0, Start);
  }

  // ---------------------------------------------------------------------
  // Scanning known text.
  // ---------------------------------------------------------------------

  /** `w` occurs in `input` at position `i`. */
  predicate At(input: string, i: nat, w: string) {
    i + |w| <= |input| && input[i..i + |w|] == w
  }

  lemma AtSplit(input: string, i: nat, a: string, b: string)
    requires At(input, i, a + b)
    ensures At(input, i, a) && At(input, i + |a|, b)
  {
    assert input[i..i + |a|] == (a + b)[..|a|];
    assert input[i + |a|..i + |a| + |b|] == (a + b)[|a|..];
  }

  /** A step that advances continues the scan from where it leaves off. */
  lemma RunAdvance(check: SlotCheck, input: string, i: nat, st: Scanner, st': Scanner, width: nat)
    requires i < |input| && Step(check, input, i, st) == Advance(st', width)
    ensures i + width <= |input| && Run(check, input, i, st) == Run(check, input, i + width, st')
  {
    assert Run(check, input, i, st) == Continue(check, input, i, st);
  }

  /** Outside a slot, escaped literal text is appended to the literal buffer. */
  lemma {:induction false} ScanLiteral(check: SlotCheck, input: string, i: nat, st: Scanner, h: string)
    requires st.depth == 0 && At(input, i, Escape(h))
    ensures Run(check, input, i, st) == Run(check, input, i + |Escape(h)|, st.(html := st.html + h))
    decreases |h|
  {
    if h == [] {
      assert st.(html := st.html + h) == st;
    } else {
      var e := EscapeChar(h[0]);
      var st' := st.(html := st.html + [h[0]]);
      LiteralStep(check, input, i, st, h);
      ScanLiteral(check, input, i + |e|, st', h[1..]);
      AppendCons(st.html, h);
      assert st'.(html := st'.html + h[1..]) == st.(html := st.html + h);
    }
  }

  /** The first escaped character of literal text. */
  lemma LiteralStep(check: SlotCheck, input: string, i: nat, st: Scanner, h: string)
    requires st.depth == 0 && h != [] && At(input, i, Escape(h))
    ensures var e := EscapeChar(h[0]);
            At(input, i + |e|, Escape(h[1..])) && |Escape(h)| == |e| + |Escape(h[1..])| &&
            Run(check, input, i, st) == Run(check, input, i + |e|, st.(html := st.html + [h[0]]))
  {
    var c, e := h[0], EscapeChar(h[0]);
    AtSplit(input, i, e, Escape(h[1..]));
    assert input[i] == e[0];
    if c == '{' || c == '}' {
      assert input[i + 1] == e[1];
      StepEscape(check, input, i, st);
    } else {
      StepLiteral(check, input, i, st);
    }
    RunAdvance(check, input, i, st, st.(html := st.html + [c]), |e|);
  }

  /** Inside a slot, text that keeps the depth positive goes to the
      expression buffer verbatim, brackets included. */
  lemma {:induction false} ScanInside(check: SlotCheck, input: string, i: nat, st: Scanner, code: string)
    requires Open(code, st.depth) && At(input, i, code)
    ensures Run(check, input, i, st) ==
            Run(check, input, i + |code|, st.(depth := Walk(code, st.depth), rust := st.rust + code))
    decreases |code|
  {
    var target := st.(depth := Walk(code, st.depth), rust := st.rust + code);
    if code == [] {
      assert st.rust + code == st.rust;
      assert target == st;
    } else {
      var c := code[0];
      assert code == [c] + code[1..];
      AtSplit(input, i, [c], code[1..]);
      StepInside(check, input, i, st);
      var st' := st.(depth := st.depth + Delta(c), rust := st.rust + [c]);
      RunAdvance(check, input, i, st, st', 1);
      ScanInside(check, input, i + 1, st', code[1..]);
      AppendCons(st.rust, code);
      assert st'.(depth := Walk(code[1..], st'.depth), rust := st'.rust + code[1..]) == target;
    }
  }

  /** A whole slot outside any other: its text is closed with an empty HTML
      context and becomes the next evaluator, or its error ends the scan. */
  lemma ScanSlot(check: SlotCheck, input: string, i: nat, st: Scanner, code: string)
    requires st.depth == 0 && st.rust == [] && SlotText(code) && At(input, i, Bracketed(code))
    ensures Run(check, input, i, st) ==
            match check(code, "")
            case Err(e) => Err(e)
            case Ok(ev) => Run(check, input, i + |code| + 2, Scanner(0, [], [], st.parts + [st.html], st.evaluators + [ev]))
  {
    var j := i + 1 + |code|;
    var s2 := Scanner(1, [], code, st.parts + [st.html], st.evaluators);
    RunOpenSlot(check, input, i, st, code);
    RunClose(check, input, j, s2);
  }

  /** The opening bracket of a slot and the slot's text are read into the
      expression buffer, up to the closing bracket. */
  lemma RunOpenSlot(check: SlotCheck, input: string, i: nat, st: Scanner, code: string)
    requires st.depth == 0 && st.rust == [] && SlotText(code) && At(input, i, Bracketed(code))
    ensures i + 1 + |code| < |input| && input[i + 1 + |code|] == '}'
    ensures Run(check, input, i, st) ==
            Run(check, input, i + 1 + |code|, Scanner(1, [], code, st.parts + [st.html], st.evaluators))
  {
    BracketedAt(input, i, code);
    var s1 := Scanner(1, [], [], st.parts + [st.html], st.evaluators);
    RunOpen(check, input, i, st);
    ScanSlotText(check, input, i + 1, st.parts + [st.html], st.evaluators, code);
  }

  /** The text of a whole slot is read verbatim into the expression buffer,
      up to (not including) its closing bracket. */
  lemma ScanSlotText(check: SlotCheck, input: string, i: nat, ps: seq<string>, es: seq<Evaluator>, code: string)
    requires SlotText(code) && At(input, i, code)
    ensures Run(check, input, i, Scanner(1, [], [], ps, es)) == Run(check, input, i + |code|, Scanner(1, [], code, ps, es))
  {
    var s1 := Scanner(1, [], [], ps, es);
    assert s1.(depth := Walk(code, 1), rust := s1.rust + code) == Scanner(1, [], code, ps, es) by {
      assert [] + code == code;
    }
    ScanInside(check, input, i, s1, code);
  }

  /** A single opening bracket outside any slot starts a slot. */
  lemma RunOpen(check: SlotCheck, input: string, i: nat, st: Scanner)
    requires st.depth == 0 && i < |input| && input[i] == '{'
    requires i + 1 == |input| || input[i + 1] != '{'
    ensures Run(check, input, i, st) == Run(check, input, i + 1, Scanner(1, [], st.rust, st.parts + [st.html], st.evaluators))
  {
    StepOpen(check, input, i, st);
    assert Run(check, input, i, st) == Continue(check, input, i, st);
  }

  /** Where a slot is written: its brackets and its text. */
  lemma BracketedAt(input: string, i: nat, code: string)
    requires SlotText(code) && At(input, i, Bracketed(code))
    ensures input[i] == '{' && (i + 1 < |input| ==> input[i + 1] != '{')
    ensures At(input, i + 1, code) && i + 1 + |code| < |input| && input[i + 1 + |code|] == '}'
  {
    var j := i + 1 + |code|;
    AtSplit(input, i, ['{'] + code, ['}']);
    AtSplit(input, i, ['{'], code);
    assert input[i..i + 1][0] == input[i];
    assert input[j..j + 1][0] == input[j];
    if code != [] {
      assert input[i + 1..j][0] == input[i + 1] == code[0];
    }
  }

  /** The closing bracket of a slot checks its text with an empty context. */
  lemma RunClose(check: SlotCheck, input: string, i: nat, st: Scanner)
    requires st.depth == 1 && st.html == [] && i < |input| && input[i] == '}'
    ensures Run(check, input, i, st) ==
            match check(st.rust, "")
            case Err(e) => Err(e)
            case Ok(ev) => Run(check, input, i + 1, Scanner(0, [], [], st.parts, st.evaluators + [ev]))
  {
    StepClose(check, input, i, st);
    assert Run(check, input, i, st) == Continue(check, input, i, st);
    match check(st.rust, st.html)
    case Err(e) =>
      assert Step(check, input, i, st) == Stop(e);
    case Ok(ev) =>
      assert Step(check, input, i, st) == Advance(Scanner(0, [], [], st.parts, st.evaluators + [ev]), 1);
  }

  /** Escaped literal text followed by complete slots, as `Unlex` writes
      them, is read back part by part and slot by slot. */
  lemma {:induction false} ScanUnlexed(check: SlotCheck, input: string, i: nat,
                                       ps: seq<string>, es: seq<Evaluator>,
                                       parts: seq<string>, evs: seq<Evaluator>,
                                       stop: nat, end: Scanner)
    requires |parts| == |evs| + 1 && AllGood(check, evs) && At(input, i, Unlex(parts, evs))
    requires stop == i + |Unlex(parts, evs)| && end == After(ps, es, parts, evs)
    ensures Run(check, input, i, Scanner(0, [], [], ps, es)) == Run(check, input, stop, end)
    decreases |evs|
  {
    if evs == [] {
      ScanLastPart(check, input, i, ps, es, parts);
    } else {
      var p, ev := parts[0], evs[0];
      PeelPiece(check, input, i, ps, es, parts, evs);
      ScanPiece(check, input, i, ps, es, p, ev);
      ScanUnlexed(check, input, i + |Piece(p, ev)|, ps + [p], es + [ev], parts[1..], evs[1..], stop, end);
    }
  }

  /** The scanner after reading `parts` and `evs` behind `ps` and `es`:
      outside any slot, with the last part still in the literal buffer. */
  function After(ps: seq<string>, es: seq<Evaluator>, parts: seq<string>, evs: seq<Evaluator>): Scanner
    requires |parts| == |evs| + 1
  {
    Scanner(0, parts[|evs|], [], ps + parts[..|evs|], es + evs)
  }

  /** Unlexed text is its first piece followed by the rest of the text,
      whose slots are still good. */
  lemma PeelPiece(check: SlotCheck, input: string, i: nat, ps: seq<string>, es: seq<Evaluator>,
                  parts: seq<string>, evs: seq<Evaluator>)
    requires |parts| == |evs| + 1 && |evs| > 0 && AllGood(check, evs) && At(input, i, Unlex(parts, evs))
    ensures var p, ev, n := parts[0], evs[0], |evs|;
            var k := i + |Piece(p, ev)|;
            AllGood(check, evs[1..]) && At(input, k, Unlex(parts[1..], evs[1..])) &&
            k + |Unlex(parts[1..], evs[1..])| == i + |Unlex(parts, evs)| &&
            GoodSlot(check, ev) && At(input, i, Piece(p, ev)) &&
            After(ps + [p], es + [ev], parts[1..], evs[1..]) == After(ps, es, parts, evs)
  {
    var p, ev := parts[0], evs[0];
    UnlexCons(parts, evs);
    AtSplit(input, i, Piece(p, ev), Unlex(parts[1..], evs[1..]));
    AllGoodTail(check, evs);
    ShiftParts(ps, es, parts, evs);
  }

  lemma ShiftParts(ps: seq<string>, es: seq<Evaluator>, parts: seq<string>, evs: seq<Evaluator>)
    requires |parts| == |evs| + 1 && |evs| > 0
    ensures After(ps + [parts[0]], es + [evs[0]], parts[1..], evs[1..]) == After(ps, es, parts, evs)
  {
    var n := |evs|;
    assert parts[..n] == [parts[0]] + parts[1..][..n - 1];
    assert evs == [evs[0]] + evs[1..];
    assert (ps + [parts[0]]) + parts[1..][..n - 1] == ps + parts[..n];
    assert (es + [evs[0]]) + evs[1..] == es + evs;
  }

  /** The last literal part, with no slot after it. */
  lemma ScanLastPart(check: SlotCheck, input: string, i: nat, ps: seq<string>, es: seq<Evaluator>, parts: seq<string>)
    requires |parts| == 1 && At(input, i, Unlex(parts, []))
    ensures Run(check, input, i, Scanner(0, [], [], ps, es)) ==
            Run(check, input, i + |Unlex(parts, [])|, After(ps, es, parts, []))
  {
    var st := Scanner(0, [], [], ps, es);
    assert Unlex(parts, []) == Escape(parts[0]) by {
      assert parts[..0] == [];
    }
    assert st.(html := st.html + parts[0]) == After(ps, es, parts, []) by {
      assert ps + parts[..0] == ps && es + [] == es;
    }
    ScanLiteral(check, input, i, st, parts[0]);
  }

  lemma AllGoodTail(check: SlotCheck, evs: seq<Evaluator>)
    requires |evs| > 0 && AllGood(check, evs)
    ensures AllGood(check, evs[1..])
  {
    forall m | 0 <= m < |evs| - 1 ensures GoodSlot(check, evs[1..][m]) {
      assert evs[1..][m] == evs[m + 1];
    }
  }

  /** One literal part followed by one good slot is scanned into one more
      part and one more evaluator. */
  lemma ScanPiece(check: SlotCheck, input: string, i: nat, ps: seq<string>, es: seq<Evaluator>, p: string, ev: Evaluator)
    requires GoodSlot(check, ev) && At(input, i, Piece(p, ev))
    ensures Run(check, input, i, Scanner(0, [], [], ps, es)) ==
            Run(check, input, i + |Piece(p, ev)|, Scanner(0, [], [], ps + [p], es + [ev]))
  {
    var code := ev.source;
    AtSplit(input, i, Escape(p), Bracketed(code));
    var j := i + |Escape(p)|;
    var k := j + |code| + 2;
    assert k == i + |Piece(p, ev)|;
    ScanFirstLiteral(check, input, i, ps, es, p);
    ScanGoodSlot(check, input, j, ps, es, p, ev);
  }

  /** Literal text right after a slot (or at the start) fills the empty
      literal buffer. */
  lemma ScanFirstLiteral(check: SlotCheck, input: string, i: nat, ps: seq<string>, es: seq<Evaluator>, p: string)
    requires At(input, i, Escape(p))
    ensures Run(check, input, i, Scanner(0, [], [], ps, es)) == Run(check, input, i + |Escape(p)|, Scanner(0, p, [], ps, es))
  {
    var st := Scanner(0, [], [], ps, es);
    assert st.(html := st.html + p) == Scanner(0, p, [], ps, es) by {
      assert [] + p == p;
    }
    ScanLiteral(check, input, i, st, p);
  }

  /** A good slot after literal text `p` closes `p` as a part and adds its
      evaluator. */
  lemma ScanGoodSlot(check: SlotCheck, input: string, j: nat, ps: seq<string>, es: seq<Evaluator>, p: string, ev: Evaluator)
    requires GoodSlot(check, ev) && At(input, j, Bracketed(ev.source))
    ensures Run(check, input, j, Scanner(0, p, [], ps, es)) ==
            Run(check, input, j + |ev.source| + 2, Scanner(0, [], [], ps + [p], es + [ev]))
  {
    var sA := Scanner(0, p, [], ps, es);
    assert check(ev.source, "") == Ok(ev);
    ScanSlot(check, input, j, sA, ev.source);
    assert Scanner(0, [], [], sA.parts + [sA.html], sA.evaluators + [ev]) == Scanner(0, [], [], ps + [p], es + [ev]);
  }

  /** Unlexing then lexing: any parts and well-formed slots, written out as
      template text, are read back exactly. */
  lemma UnlexRoundTrip(check: SlotCheck, parts: seq<string>, evs: seq<Evaluator>)
    requires |parts| == |evs| + 1 && AllGood(check, evs)
    ensures Scan(check, Unlex(parts, evs)) == Ok(Lexed(parts, evs))
  {
    var input := Unlex(parts, evs);
    assert input[0..|input|] == input;
    ScanUnlexed(check, input, 0, [], [], parts, evs, |Unlex(parts, evs)|, After([], [], parts, evs));
    assert [] + parts[..|evs|] + [parts[|evs|]] == parts;
    assert [] + evs == evs;
  }

  /** The scan succeeds with a result exactly when the input is that result
      written out. */
  lemma LexCharacterization(check: SlotCheck, input: string, parts: seq<string>, evs: seq<Evaluator>)
    requires Faithful(check)
    ensures Scan(check, input) == Ok(Lexed(parts, evs)) <==>
            |parts| == |evs| + 1 && AllGood(check, evs) && Unlex(parts, evs) == input
  {
    if Scan(check, input) == Ok(Lexed(parts, evs)) {
      LexRoundTrip(check, input);
    }
    if |parts| == |evs| + 1 && AllGood(check, evs) && Unlex(parts, evs) == input {
      UnlexRoundTrip(check, parts, evs);
    }
  }

  /** Two slot checks that agree whenever the literal context is empty. */
  ghost predicate AgreeOnEmptyContext(c1: SlotCheck, c2: SlotCheck) {
    forall code :: c1(code, "") == c2(code, "")
  }

  /** Inside a slot the literal buffer is empty, so every slot is checked
      with an empty context: the scan only ever sees how the check behaves
      on `""`. */
  lemma {:induction false} RunIgnoresContext(c1: SlotCheck, c2: SlotCheck, input: string, i: nat, st: Scanner)
    requires Faithful(c1) && AgreeOnEmptyContext(c1, c2)
    requires i <= |input| && Scanned(c1, input, i, st)
    ensures Run(c1, input, i, st) == Run(c2, input, i, st)
    decreases |input| - i
  {
    if i < |input| {
      assert Step(c1, input, i, st) == Step(c2, input, i, st) by {
        if st.depth > 0 {
          assert st.html == [];
          assert c1(st.rust, st.html) == c2(st.rust, st.html);
        }
      }
      var next := Step(c1, input, i, st);
      if next.Advance? {
        StepKeepsScanned(c1, input, i, st);
        RunIgnoresContext(c1, c2, input, i + next.width, next.scanner);
      }
    }
  }

  /** The `html_context` that `parse_rhtml` hands to the slot check is
      always empty: lexing gives the same result as checking each slot
      with `""` for its context. */
  lemma LexContextEmpty(syn: RustSyntax, input: string)
    ensures Lex(syn, input) == Scan((code, context) => CloseSlot(syn, code, ""), input)
  {
    var c2: SlotCheck := (code, context) => CloseSlot(syn, code, "");
    CheckerFaithful(syn);
    assert AgreeOnEmptyContext(Checker(syn), c2);
    assert Scanned(Checker(syn), input, 0, Start) by {
      assert input[..0] == Closed([], []) + Escape([]);
    }
    RunIgnoresContext(Checker(syn), c2, input, 0, Start);
  }

  // ---------------------------------------------------------------------
  // The errors, each at its trigger.
  // ---------------------------------------------------------------------

  /** Complete parts and slots at the head of the input are read before
      anything that follows them is looked at. */
  lemma ScanPrefix(check: SlotCheck, parts: seq<string>, evs: seq<Evaluator>, rest: string)
    requires |parts| == |evs| + 1 && AllGood(check, evs)
    ensures Scan(check, Unlex(parts, evs) + rest) ==
            Run(check, Unlex(parts, evs) + rest, |Unlex(parts, evs)|, After([], [], parts, evs))
  {
    var u := Unlex(parts, evs);
    var input := u + rest;
    assert At(input, 0, u) by {
      assert input[0..|u|] == u;
    }
    ScanUnlexed(check, input, 0, [], [], parts, evs, |Unlex(parts, evs)|, After([], [], parts, evs));
  }

  /** A closing bracket outside a slot that is not doubled is an error. */
  lemma StrayCloseFails(check: SlotCheck, parts: seq<string>, evs: seq<Evaluator>, rest: string)
    requires |parts| == |evs| + 1 && AllGood(check, evs)
    requires rest == [] || rest[0] != '}'
    ensures Scan(check, Unlex(parts, evs) + ['}'] + rest) == Err(CompileError(UnexpectedCloseMessage))
  {
    var u := Unlex(parts, evs);
    var input := u + (['}'] + rest);
    assert u + ['}'] + rest == input;
    ScanPrefix(check, parts, evs, ['}'] + rest);
    var st := After([], [], parts, evs);
    assert input[|u|] == '}';
    assert |u| + 1 < |input| ==> input[|u| + 1] == rest[0];
    StepStray(check, input, |u|, st);
  }

  /** A slot that is still open when the input ends is an error. */
  lemma UnclosedFails(check: SlotCheck, parts: seq<string>, evs: seq<Evaluator>, code: string)
    requires |parts| == |evs| + 1 && AllGood(check, evs)
    requires Open(code, 1) && (code == [] || code[0] != '{')
    ensures Scan(check, Unlex(parts, evs) + ['{'] + code) == Err(CompileError(MissingCloseMessage))
  {
    var u := Unlex(parts, evs);
    var input := u + (['{'] + code);
    assert u + ['{'] + code == input;
    ScanPrefix(check, parts, evs, ['{'] + code);
    OpenAtEnd(check, input, |u|, After([], [], parts, evs), code);
  }

  /** An opening bracket whose slot the rest of the input leaves open. */
  lemma OpenAtEnd(check: SlotCheck, input: string, i: nat, st: Scanner, code: string)
    requires st.depth == 0 && i < |input| && input[i] == '{' && input[i + 1..] == code
    requires Open(code, 1) && (code == [] || code[0] != '{')
    ensures Run(check, input, i, st) == Err(CompileError(MissingCloseMessage))
  {
    assert i + 1 < |input| ==> input[i + 1] == code[0];
    RunOpen(check, input, i, st);
    var s1 := Scanner(1, [], st.rust, st.parts + [st.html], st.evaluators);
    assert At(input, i + 1, code);
    ScanInside(check, input, i + 1, s1, code);
    OpenWalk(code, 1);
  }

  /** A slot whose text does not tokenize, or is not an identifier, literal
      or expression, ends the scan with that error. */
  lemma BadSlotFails(check: SlotCheck, parts: seq<string>, evs: seq<Evaluator>, code: string, rest: string)
    requires |parts| == |evs| + 1 && AllGood(check, evs)
    requires SlotText(code) && check(code, "").Err?
    ensures Scan(check, Unlex(parts, evs) + Bracketed(code) + rest) == Err(check(code, "").error)
  {
    var u := Unlex(parts, evs);
    var input := u + (Bracketed(code) + rest);
    assert u + Bracketed(code) + rest == input;
    ScanPrefix(check, parts, evs, Bracketed(code) + rest);
    assert At(input, |u|, Bracketed(code)) by {
      assert input[|u|..|u| + |Bracketed(code)|] == Bracketed(code);
    }
    ScanSlot(check, input, |u|, After([], [], parts, evs), code);
  }

  lemma {:induction false} EscapeIdentity(h: string)
    requires forall k :: 0 <= k < |h| ==> h[k] != '{' && h[k] != '}'
    ensures Escape(h) == h
    decreases |h|
  {
    if h != [] {
      EscapeIdentity(h[1..]);
    }
  }

  /** Text without brackets is a single literal part and no slot; in
      particular the empty template gives `[""]`. */
  lemma NoBracesLiteral(check: SlotCheck, input: string)
    requires forall k :: 0 <= k < |input| ==> input[k] != '{' && input[k] != '}'
    ensures Scan(check, input) == Ok(Lexed([input], []))
  {
    EscapeIdentity(input);
    var parts: seq<string> := [input];
    assert parts[..0] == [] && parts[0] == input;
    assert Unlex(parts, []) == Closed([], []) + Escape(input);
    assert Unlex(parts, []) == input;
    UnlexRoundTrip(check, parts, []);
  }

  /** Doubled brackets at depth 0 are literal brackets; a lone one is an
      error. */
  lemma EscapedBrackets(check: SlotCheck)
    ensures Scan(check, "{{}}") == Ok(Lexed(["{}"], []))
    ensures Scan(check, "{{") == Ok(Lexed(["{"], []))
    ensures Scan(check, "}}") == Ok(Lexed(["}"], []))
    ensures Scan(check, "}") == Err(CompileError(UnexpectedCloseMessage))
    ensures Scan(check, "{") == Err(CompileError(MissingCloseMessage))
  {
    assert Escape("}") == "}}" + Escape([]);
    assert Escape("{}") == "{{" + Escape("}");
    assert Unlex(["{}"], []) == "{{}}";
    UnlexRoundTrip(check, ["{}"], []);
    assert Unlex(["}"], []) == "}}";
    UnlexRoundTrip(check, ["}"], []);
    assert Unlex(["{"], []) == "{{";
    UnlexRoundTrip(check, ["{"], []);
    assert Unlex([""], []) == [];
    StrayCloseFails(check, [""], [], []);
    assert [] + ['}'] + [] == "}";
    UnclosedFails(check, [""], [], []);
    assert [] + ['{'] + [] == "{";
  }

  /** An escaped slot next to a real one: `{{0}}{1}` is the literal `{0}`
      followed by the slot `1`. */
  lemma EscapeBesideSlot(check: SlotCheck)
    requires check("1", "") == Ok(Tokens("1"))
    ensures Scan(check, "{{0}}{1}") == Ok(Lexed(["{0}", ""], [Tokens("1")]))
  {
    assert SlotText("1");
    assert GoodSlot(check, Tokens("1"));
    assert Escape("}") == "}}" + Escape([]);
    assert Escape("0}") == "0" + Escape("}");
    assert Escape("{0}") == "{{" + Escape("0}");
    var parts, evs := ["{0}", ""], [Tokens("1")];
    assert parts[..1] == ["{0}"] && parts[1] == "";
    assert Closed(["{0}"], evs) == Piece("{0}", Tokens("1")) + Closed([], []);
    assert Piece("{0}", Tokens("1")) == "{{0}}{1}";
    assert Unlex(parts, evs) == "{{0}}{1}";
    UnlexRoundTrip(check, parts, evs);
  }

  /** Brackets nested in a slot are kept, the outer pair is dropped: the
      slot of `{ {1} }` is the block ` {1} `. */
  lemma NestedBracketsKept(check: SlotCheck)
    requires check(" {1} ", "") == Ok(Tokens(" {1} "))
    ensures Scan(check, "{ {1} }") == Ok(Lexed(["", ""], [Tokens(" {1} ")]))
  {
    var code := " {1} ";
    assert code[1..] == "{1} " && "{1} "[1..] == "1} " && "1} "[1..] == "} " && "} "[1..] == " ";
    assert Walk(" ", 1) == 1 && Open(" ", 1);
    assert Walk("} ", 2) == 1 && Open("} ", 2);
    assert Walk("1} ", 2) == 1 && Open("1} ", 2);
    assert Walk("{1} ", 1) == 1 && Open("{1} ", 1);
    assert Walk(code, 1) == 1 && Open(code, 1);
    assert GoodSlot(check, Tokens(code));
    var parts, evs := ["", ""], [Tokens(code)];
    assert parts[..1] == [""] && parts[1] == "";
    assert Closed([""], evs) == Piece("", Tokens(code)) + Closed([], []);
    assert Piece("", Tokens(code)) == "{ {1} }";
    assert Unlex(parts, evs) == "{ {1} }";
    UnlexRoundTrip(check, ["", ""], [Tokens(code)]);
  }

  // ---------------------------------------------------------------------
  // expand: from the macro's input tokens to the compiled template.
  // ---------------------------------------------------------------------

  const InternalMessage := "internal"
  const CountMessage := "unexpected number of parameters, this might be an internal rust_html error"

  /** What the macro emits: one (literal, slot) pair per slot, then the
      literal tail. */
  datatype Compiled = Compiled(pairs: seq<(string, Evaluator)>, tail: string)

  function Literals(pairs: seq<(string, Evaluator)>): (r: seq<string>)
    ensures |r| == |pairs| && forall k :: 0 <= k < |pairs| ==> r[k] == pairs[k].0
  {
    seq(|pairs|, k requires 0 <= k < |pairs| => pairs[k].0)
  }

  function Slots(pairs: seq<(string, Evaluator)>): (r: seq<Evaluator>)
    ensures |r| == |pairs| && forall k :: 0 <= k < |pairs| ==> r[k] == pairs[k].1
  {
    seq(|pairs|, k requires 0 <= k < |pairs| => pairs[k].1)
  }

  /** The template text a compiled template was read from. */
  function Source(c: Compiled): string {
    Unlex(Literals(c.pairs) + [c.tail], Slots(c.pairs))
  }

  /**
   * The stages of `expand`, in order: the input must be one string literal,
   * it must lex, and the concatenated literal parts must pass the HTML check
   * `htmlCheck` (which stands for trimming each line and then parsing the
   * HTML); the last part is then popped as the tail and the rest are paired
   * with the slots.
   */
  function Compile(tokens: seq<InputToken>, syn: RustSyntax, htmlCheck: string -> Check): Result<Compiled> {
    match ValidateInput(tokens)
    case Err(e) => Err(e)
    case Ok(text) =>
      match Lex(syn, text)
      case Err(e) => Err(e)
      case Ok(lexed) =>
        match htmlCheck(Join(lexed.parts, ""))
        case Fail(e) => Err(e)
        case Pass => Pair(lexed)
  }

  /** The end of `expand`: the last literal part is popped as the tail, the
      rest must match the slots one to one and are paired with them. */
  function Pair(lexed: Lexed): Result<Compiled> {
    var n := |lexed.parts|;
    if n == 0 then Err(CompileError(InternalMessage))
    else if n - 1 != |lexed.evaluators| then Err(CompileError(CountMessage))
    else Ok(Compiled(seq(n - 1, k requires 0 <= k < n - 1 => (lexed.parts[k], lexed.evaluators[k])), lexed.parts[n - 1]))
  }

  /** Pairing loses nothing: with one more part than slots it succeeds and
      its literals, tail and slots are the lexed ones; otherwise it fails. */
  lemma PairInverse(lexed: Lexed)
    ensures Pair(lexed).Ok? <==> |lexed.parts| == |lexed.evaluators| + 1
    ensures Pair(lexed).Ok? ==>
            Literals(Pair(lexed).value.pairs) + [Pair(lexed).value.tail] == lexed.parts &&
            Slots(Pair(lexed).value.pairs) == lexed.evaluators
  {
    if |lexed.parts| == |lexed.evaluators| + 1 {
      var c := Pair(lexed).value;
      assert Literals(c.pairs) == lexed.parts[..|lexed.evaluators|];
      assert Literals(c.pairs) + [c.tail] == lexed.parts;
      assert Slots(c.pairs) == lexed.evaluators;
    }
  }

  /** `expand`, with the same early returns as the source. */
  method Expand(tokens: seq<InputToken>, syn: RustSyntax, htmlCheck: string -> Check) returns (r: Result<Compiled>)
    ensures r == Compile(tokens, syn, htmlCheck)
  {
    var inputString := ValidateInput(tokens);
    if inputString.Err? {
      return Err(inputString.error);
    }
    var lexed := ParseRhtml(syn, inputString.value);
    if lexed.Err? {
      return Err(lexed.error);
    }
    var htmlParts := lexed.value.parts;
    var rustEvaluators := lexed.value.evaluators;
    var checked := htmlCheck(Join(htmlParts, ""));
    if checked.Fail? {
      return Err(checked.error);
    }
    var htmlLiterals := htmlParts;
    if |htmlLiterals| == 0 {
      return Err(CompileError(InternalMessage));
    }
    var templateEnd := htmlLiterals[|htmlLiterals| - 1];
    htmlLiterals := htmlLiterals[..|htmlLiterals| - 1];
    if |htmlLiterals| != |rustEvaluators| {
      return Err(CompileError(CountMessage));
    }
    var pairs := seq(|htmlLiterals|, k requires 0 <= k < |htmlLiterals| => (htmlLiterals[k], rustEvaluators[k]));
    assert pairs == seq(|htmlParts| - 1, k requires 0 <= k < |htmlParts| - 1 => (htmlParts[k], rustEvaluators[k]));
    r := Ok(Compiled(pairs, templateEnd));
  }

  /**
   * `expand` succeeds exactly when its three checks pass: the `pop` always
   * finds a tail and the count check never fires.  Each failing check's own
   * error is the result.  On success the compiled pairs and tail are the
   * lexed parts and slots in order, every slot is well formed, and they
   * spell out the template text exactly.
   */
  lemma CompileOutcome(tokens: seq<InputToken>, syn: RustSyntax, htmlCheck: string -> Check)
    ensures var r := Compile(tokens, syn, htmlCheck);
            var v := ValidateInput(tokens);
            (v.Err? ==> r == Err(v.error)) &&
            (v.Ok? ==>
              var lexed := Lex(syn, v.value);
              (lexed.Err? ==> r == Err(lexed.error)) &&
              (lexed.Ok? ==>
                var h := htmlCheck(Join(lexed.value.parts, ""));
                (h.Fail? ==> r == Err(h.error)) &&
                (h.Pass? ==>
                  r.Ok? &&
                  Literals(r.value.pairs) + [r.value.tail] == lexed.value.parts &&
                  Slots(r.value.pairs) == lexed.value.evaluators &&
                  AllGood(Checker(syn), Slots(r.value.pairs)) &&
                  Source(r.value) == v.value)))
  {
    var v := ValidateInput(tokens);
    if v.Ok? && Lex(syn, v.value).Ok? {
      var out := Lex(syn, v.value).value;
      CheckerFaithful(syn);
      LexRoundTrip(Checker(syn), v.value);
      PairInverse(out);
    }
  }
}
