/**
 * The diagnostic helpers of the macro crate (rust_html_macros/src/util.rs):
 * the single-string-literal check on the macro input, the conversion of a
 * slot's Rust text to tokens, the identifier/literal/expression check, the
 * bounded error snippet, and the HTML error report.
 *
 * The Rust parsers the crate calls (proc_macro2's lexer, syn's `Ident`,
 * `Lit` and `Expr` parsers, litrs' literal classifier) are not part of this
 * model: they enter as the fields of a `RustSyntax` value, or as the shape
 * of an `InputToken`.
 */
module Diagnostics {
  import opened Text

  /** The answers of the Rust parsers about one piece of slot text. */
  datatype RustSyntax = RustSyntax(
    tokenizes: string -> bool,  // `str::parse::<TokenStream>` succeeds
    isIdent: string -> bool,    // `syn::parse2::<syn::Ident>` succeeds
    isLiteral: string -> bool,  // `syn::parse2::<syn::Lit>` succeeds
    isExpr: string -> bool)     // `syn::parse2::<syn::Expr>` succeeds

  /**
   * The token stream made from one slot: either the `""` literal that stands
   * in for a blank slot, or the tokens of the slot's text.  Both remember the
   * text they were made from.
   */
  datatype Evaluator = EmptyString(source: string) | Tokens(source: string)

  /** The error token streams the crate produces. */
  datatype Diagnostic =
    | CompileError(message: string)  // `compile_error!("…")`, built by `compile_error`
    | LiteralError                   // litrs' own error for a token that is not a literal
    | SynError(context: string)      // syn's identifier error combined with a context message

  datatype Result<T> = Ok(value: T) | Err(error: Diagnostic)

  /** `Result<(), TokenStream>`. */
  datatype Check = Pass | Fail(error: Diagnostic)

  datatype Option<T> = None | Some(value: T)

  /** One token of the macro's input, as litrs classifies it. */
  datatype InputToken =
    | StringLiteral(value: string)  // a string literal; `value` is its unescaped content
    | OtherLiteral(text: string)    // a literal of another kind, as it is displayed
    | NotLiteral(text: string)      // an identifier other than `true`/`false`, punctuation or a group

  predicate AllWhitespace(s: string) {
    forall k :: 0 <= k < |s| ==> IsWhitespace(s[k])
  }

  /** `s` is a non-empty run of decimal digits that reads as `n`. */
  predicate ReadsAs(s: string, n: nat) {
    |s| > 0 && (forall k :: 0 <= k < |s| ==> '0' <= s[k] <= '9') && DecimalValue(s) == n
  }

  // ---------------------------------------------------------------------
  // validate_input
  // ---------------------------------------------------------------------

  const SingleInputMessage := "expected a single input, but found "

  /**
   * The macro takes nothing, or exactly one string literal.  No tokens give
   * the empty template; several tokens give an error naming their count; a
   * single token that is some other literal, or no literal at all, is an
   * error.
   */
  function ValidateInput(tokens: seq<InputToken>): (r: Result<string>)
    ensures r.Ok? <==> |tokens| == 0 || (|tokens| == 1 && tokens[0].StringLiteral?)
    ensures |tokens| == 0 ==> r == Ok("")
    ensures |tokens| == 1 && r.Ok? ==> r.value == tokens[0].value
    ensures |tokens| > 1 ==>
              r.Err? && r.error.CompileError? && IsPrefix(SingleInputMessage, r.error.message) &&
              ReadsAs(r.error.message[|SingleInputMessage|..], |tokens|)
    ensures |tokens| == 1 && tokens[0].NotLiteral? ==> r == Err(LiteralError)
  {
    if |tokens| == 0 then Ok("")
    else if |tokens| > 1 then
      var message := SingleInputMessage + Decimal(|tokens|);
      assert message[|SingleInputMessage|..] == Decimal(|tokens|);
      DecimalRoundTrip(|tokens|);
      Err(CompileError(message))
    else
      match tokens[0]
      case NotLiteral(_) => Err(LiteralError)
      case StringLiteral(value) => Ok(value)
      case OtherLiteral(text) => Err(CompileError("expected string literal, but found literal '" + text + "'"))
  }

  // ---------------------------------------------------------------------
  // inner_rust_to_tokens and validate_inner_rust
  // ---------------------------------------------------------------------

  /**
   * A slot whose text is blank (only whitespace) becomes the `""` literal;
   * any other text must lex as Rust tokens.
   */
  function InnerRustToTokens(syn: RustSyntax, code: string): (r: Result<Evaluator>)
    ensures r.Ok? ==> r.value.source == code
    ensures AllWhitespace(code) ==> r == Ok(EmptyString(code))
    ensures !AllWhitespace(code) ==> (r.Ok? <==> syn.tokenizes(code)) && (r.Ok? ==> r.value.Tokens?)
    ensures r.Err? ==> r.error == CompileError("failed to parse rust tokens '" + code + "' inside brackets '{}'")
  {
    TrimEmptyIff(code);
    if Trim(code) == "" then Ok(EmptyString(code))
    else if syn.tokenizes(code) then Ok(Tokens(code))
    else Err(CompileError("failed to parse rust tokens '" + code + "' inside brackets '{}'"))
  }

  predicate ParsesAsIdent(syn: RustSyntax, ev: Evaluator) {
    ev.Tokens? && syn.isIdent(ev.source)
  }

  /** The `""` literal parses as a literal. */
  predicate ParsesAsLiteral(syn: RustSyntax, ev: Evaluator) {
    ev.EmptyString? || syn.isLiteral(ev.source)
  }

  predicate ParsesAsExpr(syn: RustSyntax, ev: Evaluator) {
    ev.EmptyString? || syn.isExpr(ev.source)
  }

  const NotValidPrefix := "template input is not a valid identifer/expression/literal: "

  /**
   * A slot is accepted when its tokens parse as an identifier, a literal or
   * an expression; otherwise the identifier error is reported, with a snippet
   * of the slot and of the HTML before it.
   */
  function ValidateInnerRust(syn: RustSyntax, ev: Evaluator, code: string, htmlContext: string): (r: Check)
    ensures r.Pass? <==> ParsesAsIdent(syn, ev) || ParsesAsLiteral(syn, ev) || ParsesAsExpr(syn, ev)
    ensures r.Fail? ==> r.error == SynError(WrapMessage(NotValidPrefix, code, htmlContext))
  {
    if ParsesAsIdent(syn, ev) then Pass
    else if ParsesAsLiteral(syn, ev) then Pass
    else if ParsesAsExpr(syn, ev) then Pass
    else Fail(SynError(WrapMessage(NotValidPrefix, code, htmlContext)))
  }

  /** A blank slot is turned into the `""` literal, which every check accepts. */
  lemma BlankSlotAccepted(syn: RustSyntax, code: string, htmlContext: string)
    requires AllWhitespace(code)
    ensures InnerRustToTokens(syn, code) == Ok(EmptyString(code))
    ensures ValidateInnerRust(syn, EmptyString(code), code, htmlContext) == Pass
  {
  }

  // ---------------------------------------------------------------------
  // wrap_rust_compile_error
  // ---------------------------------------------------------------------

  const HtmlInfoMax := 20
  const RustInfoMax := 15

  function Min(a: int, b: int): int {
    if a < b then a else b
  }

  /**
   * The HTML part of the snippet: the characters that end just before the
   * last character of the context, at most 19 of them.
   */
  function HtmlWindow(html: string): (r: string)
    ensures |html| == 0 ==> r == []
    ensures |html| > 0 ==> |r| == Min(|html| - 1, HtmlInfoMax - 1) && r == html[|html| - 1 - |r|..|html| - 1]
  {
    if |html| == 0 then ""
    else if |html| <= HtmlInfoMax then html[..|html| - 1]
    else html[|html| - HtmlInfoMax..|html| - 1]
  }

  /**
   * The Rust part of the snippet as the source computes it: short code is
   * shown whole, longer code loses its last 15 characters.
   */
  function RustWindowAsWritten(rust: string): (r: string)
    ensures |rust| <= RustInfoMax ==> r == rust
    ensures |rust| > RustInfoMax ==> |r| == |rust| - RustInfoMax && IsPrefix(r, rust)
  {
    if |rust| == 0 then ""
    else if |rust| <= RustInfoMax then rust
    else rust[..|rust| - RustInfoMax]
  }

  /** The window above exceeds its 15-character bound on a 31-character slot
      that tokenizes but is no identifier, literal or expression. */
  lemma RustWindowAsWrittenUnbounded()
    ensures var code := "a; b; c; d; e; f; g; h; i; j; k";
            |code| == 31 && RustWindowAsWritten(code) == "a; b; c; d; e; f" &&
            |RustWindowAsWritten(code)| == 16 > RustInfoMax
  {
  }

  /**
   * The Rust part of the snippet with the bound the constant names: short
   * code whole, longer code cut to its first 15 characters.
   */
  function RustWindow(rust: string): (r: string)
    ensures |r| <= RustInfoMax && IsPrefix(r, rust)
    ensures |rust| <= RustInfoMax ==> r == rust
  {
    if |rust| == 0 then ""
    else if |rust| <= RustInfoMax then rust
    else rust[..RustInfoMax]
  }

  const SnippetEnd := "}' <-  "

  /** The HTML part of the snippet, with the `"... "` marker when cut. */
  function HtmlPart(html: string): (r: string)
    ensures |r| <= HtmlInfoMax + 3
    ensures |html| <= HtmlInfoMax ==> r == HtmlWindow(html)
  {
    (if |html| > HtmlInfoMax then "... " else "") + HtmlWindow(html)
  }

  /** The snippet in quotes, then the closing-bracket pointer and the prefix. */
  function Quote(htmlPart: string, rustPart: string, prefix: string): (r: string)
    ensures |r| == 1 + |htmlPart| + |rustPart| + |SnippetEnd| + |prefix|
    ensures r[0] == '\'' && r[|r| - |prefix| - |SnippetEnd|..] == SnippetEnd + prefix
  {
    var tail := SnippetEnd + prefix;
    QuotedShape(htmlPart, rustPart, tail);
    "'" + htmlPart + rustPart + tail
  }

  /**
   * The context message `wrap_rust_compile_error` builds: a quoted snippet
   * of the HTML before the slot and of the slot's text, each marked when
   * cut, followed by the prefix.  The Rust part is the window as written,
   * so the message grows with the slot.
   */
  function WrapMessage(prefix: string, rust: string, html: string): (r: string)
    ensures |prefix| + |SnippetEnd| < |r| <= |prefix| + |SnippetEnd| + HtmlInfoMax + 4 + |rust|
    ensures r[0] == '\'' && r[|r| - |prefix| - |SnippetEnd|..] == SnippetEnd + prefix
    ensures html == "" && |rust| <= RustInfoMax ==> r == "'" + rust + SnippetEnd + prefix
    ensures html == "" && |rust| > RustInfoMax ==>
              r == "'" + rust[..|rust| - RustInfoMax] + " ..." + SnippetEnd + prefix
  {
    QuoteNoHtml(prefix, rust);
    Quote(HtmlPart(html), RustPartAsWritten(rust), prefix)
  }

  /** The Rust part of the snippet as written: the window, with the `" ..."`
      marker when cut. */
  function RustPartAsWritten(rust: string): (r: string)
    ensures |r| <= |rust|
    ensures |rust| <= RustInfoMax ==> r == rust
    ensures |rust| > RustInfoMax ==> r == rust[..|rust| - RustInfoMax] + " ..."
  {
    RustWindowAsWritten(rust) + (if |rust| > RustInfoMax then " ..." else "")
  }

  /** The message for the slot `a;` repeated 50 times (100 characters, no
      identifier, literal or expression) is more than 50 characters longer
      than its prefix. */
  lemma WrapMessageUnbounded(prefix: string)
    ensures var code := seq(100, k => if k % 2 == 0 then 'a' else ';');
            |WrapMessage(prefix, code, "")| > |prefix| + 50
  {
  }

  /** The message with the corrected Rust window: never more than 50
      characters longer than its prefix, and the same as the program's
      whenever the slot is at most 15 characters long. */
  function WrapMessageCorrected(prefix: string, rust: string, html: string): (r: string)
    ensures |prefix| + |SnippetEnd| < |r| <= |prefix| + 50
    ensures r[0] == '\'' && r[|r| - |prefix| - |SnippetEnd|..] == SnippetEnd + prefix
    ensures |rust| <= RustInfoMax ==> r == WrapMessage(prefix, rust, html)
  {
    Quote(HtmlPart(html), RustWindow(rust) + (if |rust| > RustInfoMax then " ..." else ""), prefix)
  }

  /** Without HTML, the snippet is the Rust part alone. */
  lemma QuoteNoHtml(prefix: string, rust: string)
    ensures Quote(HtmlPart(""), RustPartAsWritten(rust), prefix) ==
            if |rust| <= RustInfoMax then "'" + rust + SnippetEnd + prefix
            else "'" + rust[..|rust| - RustInfoMax] + " ..." + SnippetEnd + prefix
  {
    assert HtmlPart("") == "";
    if |rust| > RustInfoMax {
      var w := rust[..|rust| - RustInfoMax];
      assert "'" + "" + (w + " ...") + (SnippetEnd + prefix) == "'" + w + " ..." + SnippetEnd + prefix;
    }
  }

  lemma QuotedShape(a: string, b: string, tail: string)
    ensures var r := "'" + a + b + tail;
            |r| == 1 + |a| + |b| + |tail| && r[0] == '\'' && r[|r| - |tail|..] == tail
  {
    var r := "'" + a + b + tail;
    assert r[|r| - |tail|..] == tail;
  }

  // ---------------------------------------------------------------------
  // validate_html
  // ---------------------------------------------------------------------

  const NoBodyError := "</html> with no <body> in scope"
  const DoctypeHint := "<!DOCTYPE html> is required for root html"

  /** The hint is given when the last fragment error is the missing-body one
      and the HTML opens an `<html>` element. */
  predicate NeedsDoctypeHint(html: string, errors: seq<string>) {
    |errors| > 0 && errors[|errors| - 1] == NoBodyError && Contains(html, "<html>")
  }

  /** The lines of the HTML error report: the fragment errors in order,
      preceded by the doctype hint exactly when it is needed. */
  function ReportLines(html: string, errors: seq<string>): (r: seq<string>)
    ensures |r| == |errors| + (if NeedsDoctypeHint(html, errors) then 1 else 0)
    ensures r[|r| - |errors|..] == errors
    ensures |r| > |errors| ==> r[0] == DoctypeHint
  {
    if NeedsDoctypeHint(html, errors) then [DoctypeHint] + errors else errors
  }

  function HtmlErrorHeader(count: nat): string {
    "invalid HTML syntax (" + Decimal(count) + " issues):\n"
  }

  /**
   * The HTML is accepted when it parses without error as a body fragment or
   * as a document.  Otherwise the fragment errors are reported, joined by
   * ",\n", with their count; the hint line is not counted.
   */
  function ValidateHtml(html: string, fragmentErrors: seq<string>, documentErrors: seq<string>): (r: Check)
    ensures r.Pass? <==> |fragmentErrors| == 0 || |documentErrors| == 0
    ensures r.Fail? ==>
              r.error == CompileError(HtmlErrorHeader(|fragmentErrors|) + Join(ReportLines(html, fragmentErrors), ",\n"))
  {
    if |fragmentErrors| == 0 then Pass
    else if |documentErrors| == 0 then Pass
    else
      var allErrors := Join(fragmentErrors, ",\n");
      var allErrors := if NeedsDoctypeHint(html, fragmentErrors) then DoctypeHint + ",\n" + allErrors else allErrors;
      assert NeedsDoctypeHint(html, fragmentErrors) ==>
               Join(ReportLines(html, fragmentErrors), ",\n") == DoctypeHint + ",\n" + Join(fragmentErrors, ",\n") by {
        if NeedsDoctypeHint(html, fragmentErrors) {
          assert ([DoctypeHint] + fragmentErrors)[1..] == fragmentErrors;
        }
      }
      Fail(CompileError(HtmlErrorHeader(|fragmentErrors|) + allErrors))
  }
}
