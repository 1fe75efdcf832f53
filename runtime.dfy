/**
 * The runtime half of rust_html (src/lib.rs): a `Template` is either a raw
 * string or a template string holding replace targets
 * `{__RHTML_REPLACE_TARGET__i}` together with one parameter template per
 * target.  Building a template replaces, for each index in increasing
 * order, every occurrence of its target by the trimmed build of the
 * parameter.  Values are turned into templates by the render adapters:
 * `Display` values are HTML-escaped, `Unescaped` text is kept verbatim, a
 * `Template` renders as itself and a `TemplateGroup` as its members'
 * targets joined by newlines.
 */
module Runtime {
  import opened Text

  datatype Template = Template(content: TemplateContent)

  datatype TemplateContent =
    | RawString(value: string)
    | WithParameters(template: string, parameters: seq<Template>)

  /** A sequence of templates inserted one after another. */
  datatype TemplateGroup = TemplateGroup(members: seq<Template>)

  /** Text inserted without escaping. */
  datatype Unescaped = Unescaped(value: string)

  /** A value the macro passes to `build_internal` as a `Box<dyn Render>`:
      one case per `Render` implementation.  A `Display` value is given by
      the text its `to_string` produces. */
  datatype Renderable =
    | FromTemplate(template: Template)
    | FromUnescaped(unescaped: Unescaped)
    | FromGroup(group: TemplateGroup)
    | FromDisplay(text: string)

  const ReplaceTargetPrefix := "__RHTML_REPLACE_TARGET__"

  /** The replace target of parameter `i`: `{`, the prefix, `i` in decimal,
      `}`. */
  function Target(i: nat): (r: string)
    ensures |r| >= |ReplaceTargetPrefix| + 3 && r[0] == '{' && r[|r| - 1] == '}'
    ensures r[1..|r| - 1] == ReplaceTargetPrefix + Decimal(i)
  {
    var r := "{" + ReplaceTargetPrefix + Decimal(i) + "}";
    assert r[1..|r| - 1] == ReplaceTargetPrefix + Decimal(i);
    r
  }

  // ---------------------------------------------------------------------
  // build
  // ---------------------------------------------------------------------

  /** What `build` returns: a raw string is itself; otherwise the targets
      `0 .. n-1` are filled, in that order, with the trimmed builds of the
      `n` parameters. */
  function Flatten(t: Template): string
    decreases t, 1
  {
    match t.content
    case RawString(value) => value
    case WithParameters(template, parameters) =>
      Fill(template, Targets(|parameters|), TrimAll(FlattenAll(parameters)), |parameters|)
  }

  /** The builds of a list of templates, in order. */
  function FlattenAll(ts: seq<Template>): (r: seq<string>)
    ensures |r| == |ts| && forall k :: 0 <= k < |ts| ==> r[k] == Flatten(ts[k])
    decreases ts, 0
  {
    if ts == [] then [] else [Flatten(ts[0])] + FlattenAll(ts[1..])
  }

  /** The targets `0 .. n-1`, in order. */
  function Targets(n: nat): (r: seq<string>)
    ensures |r| == n && forall k :: 0 <= k < n ==> r[k] == Target(k)
  {
    seq(n, k requires 0 <= k < n => Target(k))
  }

  function TrimAll(values: seq<string>): (r: seq<string>)
    ensures |r| == |values| && forall k :: 0 <= k < |values| ==> r[k] == Trim(values[k])
  {
    seq(|values|, k requires 0 <= k < |values| => Trim(values[k]))
  }

  /** No marker is empty. */
  predicate Markers(targets: seq<string>) {
    forall a :: 0 <= a < |targets| ==> |targets[a]| > 0
  }

  /** `template` after replacing every occurrence of `targets[i]` by
      `values[i]`, for `i` from 0 up to `k - 1`, one index after another. */
  function Fill(template: string, targets: seq<string>, values: seq<string>, k: nat): string
    requires k <= |targets| == |values| && Markers(targets)
  {
    if k == 0 then template
    else Replace(Fill(template, targets, values, k - 1), targets[k - 1], values[k - 1])
  }

  /** `Template::build`, recursive through the parameters, with the loop of
      successive replacements; `String::from(template)` is this build. */
  method Build(t: Template) returns (output: string)
    ensures output == Flatten(t)
    decreases t
  {
    match t.content
    case RawString(value) =>
      output := value;
    case WithParameters(template, parameters) =>
      output := template;
      ghost var targets, values := Targets(|parameters|), TrimAll(FlattenAll(parameters));
      assert Markers(targets);
      for i := 0 to |parameters|
        invariant output == Fill(template, targets, values, i)
      {
        var target := Target(i);
        assert parameters[i] in parameters;
        var replace := Build(parameters[i]);
        output := Replace(output, target, Trim(replace));
      }
  }

  /** A template string without parameters builds to itself. */
  lemma NoParametersUnchanged(template: string)
    ensures Flatten(Template(WithParameters(template, []))) == template
  {
  }

  /** The text between a target's braces holds no brace. */
  lemma TargetInnerNoBrace(i: nat, k: nat)
    requires 0 < k < |Target(i)| - 1
    ensures Target(i)[k] != '{' && Target(i)[k] != '}'
  {
    var t := Target(i);
    var inner := ReplaceTargetPrefix + Decimal(i);
    assert t[k] == inner[k - 1];
    if k - 1 >= |ReplaceTargetPrefix| {
      assert inner[k - 1] == Decimal(i)[k - 1 - |ReplaceTargetPrefix|];
    }
  }

  /** Targets of distinct indices are distinct and neither occurs inside the
      other: the closing brace stops target 1 from matching inside target
      10. */
  lemma TargetsDistinct(i: nat, j: nat)
    requires i != j
    ensures !Contains(Target(i), Target(j))
  {
    var a, b := Target(i), Target(j);
    if Contains(a, b) {
      var k := ContainsWitness(a, b);
      assert a[k] == b[0] == '{';
      if k > 0 {
        TargetInnerNoBrace(i, k);
      }
      assert k == 0;
      if |b| < |a| {
        assert false;
      }
      assert a == b;
      assert Decimal(i) == a[1..|a| - 1][|ReplaceTargetPrefix|..];
      assert Decimal(j) == b[1..|b| - 1][|ReplaceTargetPrefix|..];
      DecimalInjective(i, j);
    }
  }

  /** A target holds no newline, the separator of groups. */
  lemma TargetNoNewline(i: nat)
    ensures '\n' !in Target(i)
  {
    var t := Target(i);
    forall k | 0 <= k < |t| ensures t[k] != '\n' {
      if 0 < k < |t| - 1 {
        var inner := ReplaceTargetPrefix + Decimal(i);
        assert t[k] == inner[k - 1];
        if k - 1 >= |ReplaceTargetPrefix| {
          assert inner[k - 1] == Decimal(i)[k - 1 - |ReplaceTargetPrefix|];
        }
      }
    }
  }

  // ---------------------------------------------------------------------
  // The render adapters.
  // ---------------------------------------------------------------------

  /** `Template::render`: a clone, so a nested template is inserted as it
      is, never escaped again. */
  function RenderTemplate(t: Template): (r: Template)
    ensures r == t
    ensures Flatten(r) == Flatten(t)
  {
    t
  }

  /** `Unescaped::render`: the text becomes a raw string. */
  function RenderUnescaped(u: Unescaped): (r: Template)
    ensures r.content.RawString? && Flatten(r) == u.value
  {
    Template(RawString(u.value))
  }

  /** The characters `html_escape::encode_safe` replaces by an entity. */
  predicate Special(c: char) {
    c == '&' || c == '<' || c == '>' || c == '"' || c == '\'' || c == '/'
  }

  function EncodeChar(c: char): (r: string)
    ensures Special(c) ==> |r| >= 4 && r[0] == '&' && r[|r| - 1] == ';'
    ensures !Special(c) ==> r == [c]
  {
    match c
    case '&' => "&amp;"
    case '<' => "&lt;"
    case '>' => "&gt;"
    case '"' => "&quot;"
    case '\'' => "&#x27;"
    case '/' => "&#x2F;"
    case _ => [c]
  }

  /** `html_escape::encode_safe`: each special character becomes its entity,
      everything else is copied.  The result holds none of `<`, `>`, `"`,
      `'`, `/`, and text without special characters is unchanged. */
  function EncodeSafe(s: string): (r: string)
    ensures forall k :: 0 <= k < |r| ==> r[k] != '<' && r[k] != '>' && r[k] != '"' && r[k] != '\'' && r[k] != '/'
    ensures (forall k :: 0 <= k < |s| ==> !Special(s[k])) ==> r == s
    decreases |s|
  {
    if s == [] then []
    else
      var head, tail := EncodeChar(s[0]), EncodeSafe(s[1..]);
      assert forall k :: 0 <= k < |head| ==> head[k] != '<' && head[k] != '>' && head[k] != '"' && head[k] != '\'' && head[k] != '/';
      head + tail
  }

  /** Reading entities back: the partner of `EncodeSafe`. */
  function Decode(s: string): string
    decreases |s|
  {
    if s == [] then []
    else if IsPrefix("&amp;", s) then "&" + Decode(s[5..])
    else if IsPrefix("&lt;", s) then "<" + Decode(s[4..])
    else if IsPrefix("&gt;", s) then ">" + Decode(s[4..])
    else if IsPrefix("&quot;", s) then "\"" + Decode(s[6..])
    else if IsPrefix("&#x27;", s) then "'" + Decode(s[6..])
    else if IsPrefix("&#x2F;", s) then "/" + Decode(s[6..])
    else [s[0]] + Decode(s[1..])
  }

  lemma DecodeEncodedChar(c: char, rest: string)
    ensures Decode(EncodeChar(c) + rest) == [c] + Decode(rest)
  {
    var s := EncodeChar(c) + rest;
    var e := EncodeChar(c);
    assert s[..|e|] == e && s[|e|..] == rest;
    if !Special(c) {
      assert s[0] == c && s[1..] == rest;
      assert c != '&' ==> !IsPrefix("&amp;", s) && !IsPrefix("&lt;", s) && !IsPrefix("&gt;", s) &&
                          !IsPrefix("&quot;", s) && !IsPrefix("&#x27;", s) && !IsPrefix("&#x2F;", s);
    } else if c == '&' {
      assert IsPrefix("&amp;", s);
    } else if c == '<' {
      assert !IsPrefix("&amp;", s) by { assert s[1] == 'l'; }
      assert IsPrefix("&lt;", s);
    } else if c == '>' {
      assert !IsPrefix("&amp;", s) by { assert s[1] == 'g'; }
      assert !IsPrefix("&lt;", s) by { assert s[1] == 'g'; }
      assert IsPrefix("&gt;", s);
    } else if c == '"' {
      assert !IsPrefix("&amp;", s) by { assert s[1] == 'q'; }
      assert !IsPrefix("&lt;", s) && !IsPrefix("&gt;", s) by { assert s[1] == 'q'; }
      assert IsPrefix("&quot;", s);
    } else if c == '\'' {
      assert !IsPrefix("&amp;", s) by { assert s[1] == '#'; }
      assert !IsPrefix("&lt;", s) && !IsPrefix("&gt;", s) by { assert s[1] == '#'; }
      assert !IsPrefix("&quot;", s) by { assert s[1] == '#'; }
      assert IsPrefix("&#x27;", s);
    } else {
      assert !IsPrefix("&amp;", s) by { assert s[1] == '#'; }
      assert !IsPrefix("&lt;", s) && !IsPrefix("&gt;", s) by { assert s[1] == '#'; }
      assert !IsPrefix("&quot;", s) by { assert s[1] == '#'; }
      assert !IsPrefix("&#x27;", s) by { assert s[4] == 'F'; }
      assert IsPrefix("&#x2F;", s);
    }
  }

  /** Escaping loses nothing: decoding the escaped text gives the text. */
  lemma {:induction false} DecodeEncodeSafe(s: string)
    ensures Decode(EncodeSafe(s)) == s
    decreases |s|
  {
    if s != [] {
      DecodeEncodedChar(s[0], EncodeSafe(s[1..]));
      DecodeEncodeSafe(s[1..]);
      assert [s[0]] + s[1..] == s;
    }
  }

  /** The `Render` impl for every `Display` type: the text is escaped and
      becomes a raw string, so it builds to text free of markup characters
      from which the original is recovered. */
  function RenderDisplay(text: string): (r: Template)
    ensures r.content.RawString? && Flatten(r) == EncodeSafe(text)
    ensures Decode(Flatten(r)) == text
  {
    DecodeEncodeSafe(text);
    Template(RawString(EncodeSafe(text)))
  }

  /** What rendering a group yields: its members' targets, one per line, with
      the members as parameters in order. */
  function GroupTemplate(g: TemplateGroup): Template {
    Template(WithParameters(Join(Targets(|g.members|), "\n"), g.members))
  }

  /** `TemplateGroup::render`, with its loop pushing one target and one
      parameter per member. */
  method RenderGroup(g: TemplateGroup) returns (r: Template)
    ensures r.content.WithParameters? && r.content.parameters == g.members
    ensures r.content.template == Join(Targets(|g.members|), "\n")
  {
    var injects: seq<string> := [];
    var parameters: seq<Template> := [];
    for i := 0 to |g.members|
      invariant injects == Targets(i) && parameters == g.members[..i]
    {
      injects := injects + [Target(i)];
      parameters := parameters + [g.members[i]];
      assert g.members[..i + 1] == g.members[..i] + [g.members[i]];
    }
    assert g.members[..|g.members|] == g.members;
    r := Template(WithParameters(Join(injects, "\n"), parameters));
  }

  /** The render of each kind of value. */
  function Render(x: Renderable): (r: Template)
    ensures x.FromTemplate? ==> r == x.template
    ensures x.FromUnescaped? ==> Flatten(r) == x.unescaped.value
    ensures x.FromDisplay? ==> Flatten(r) == EncodeSafe(x.text)
    ensures x.FromGroup? ==> r == GroupTemplate(x.group)
  {
    match x
    case FromTemplate(t) => RenderTemplate(t)
    case FromUnescaped(u) => RenderUnescaped(u)
    case FromGroup(g) => GroupTemplate(g)
    case FromDisplay(text) => RenderDisplay(text)
  }

  /** `Template::build_internal`: the template string with each parameter
      rendered, in order. */
  function BuildInternal(template: string, parameters: seq<Renderable>): (r: Template)
    ensures r.content.WithParameters? && r.content.template == template
    ensures |r.content.parameters| == |parameters|
    ensures forall k :: 0 <= k < |parameters| ==> r.content.parameters[k] == Render(parameters[k])
  {
    Template(WithParameters(template, seq(|parameters|, k requires 0 <= k < |parameters| => Render(parameters[k]))))
  }

  /** A template that is just target 0 builds to its parameter's trimmed
      build: escaped text for a `Display` value, the text itself for
      `Unescaped`, and a nested template's own build, not escaped again. */
  lemma SingleTarget(x: Renderable)
    ensures Flatten(BuildInternal(Target(0), [x])) == Trim(Flatten(Render(x)))
    ensures x.FromDisplay? ==> Flatten(BuildInternal(Target(0), [x])) == Trim(EncodeSafe(x.text))
    ensures x.FromUnescaped? ==> Flatten(BuildInternal(Target(0), [x])) == Trim(x.unescaped.value)
    ensures x.FromTemplate? ==> Flatten(BuildInternal(Target(0), [x])) == Trim(Flatten(x.template))
  {
    SingleTargetFill(x);
  }

  lemma SingleTargetFill(x: Renderable)
    ensures Flatten(BuildInternal(Target(0), [x])) == Trim(Flatten(Render(x)))
  {
    var t := BuildInternal(Target(0), [x]);
    assert t == Template(WithParameters(Target(0), [Render(x)]));
    FlattenSingle(Target(0), Render(x));
    ReplaceWhole(Target(0), Trim(Flatten(Render(x))));
  }

  /** With one parameter, the build replaces target 0 by its trimmed build. */
  lemma FlattenSingle(template: string, p: Template)
    ensures Flatten(Template(WithParameters(template, [p]))) == Replace(template, Target(0), Trim(Flatten(p)))
  {
    var targets, values := Targets(1), TrimAll(FlattenAll([p]));
    assert values[0] == Trim(Flatten(p));
    assert targets[0] == Target(0);
    assert Fill(template, targets, values, 0) == template;
  }

  // ---------------------------------------------------------------------
  // Groups.
  // ---------------------------------------------------------------------

  /** The lines of a group after the first `k` targets are filled. */
  function Lines(targets: seq<string>, values: seq<string>, k: nat): (r: seq<string>)
    requires k <= |targets| == |values|
    ensures |r| == |values|
    ensures forall m :: 0 <= m < |values| ==> r[m] == if m < k then values[m] else targets[m]
  {
    seq(|values|, m requires 0 <= m < |values| => if m < k then values[m] else targets[m])
  }

  /** No marker occurs in another one. */
  ghost predicate Separated(targets: seq<string>) {
    forall a, b :: 0 <= a < |targets| && 0 <= b < |targets| && a != b ==> !Contains(targets[a], targets[b])
  }

  /** No value holds a marker. */
  ghost predicate Clean(targets: seq<string>, values: seq<string>) {
    forall m, j :: 0 <= m < |values| && 0 <= j < |targets| ==> !Contains(values[m], targets[j])
  }

  /** The conditions under which filling a group's lines is exact. */
  ghost predicate GroupReady(targets: seq<string>, values: seq<string>) {
    |targets| == |values| && Markers(targets) && Separated(targets) && Clean(targets, values) &&
    forall a :: 0 <= a < |targets| ==> '\n' !in targets[a]
  }

  /** Filling marker `k - 1` in line `m` of the lines before that step. */
  lemma LineFilled(targets: seq<string>, values: seq<string>, k: nat, m: nat)
    requires 0 < k <= |values| && m < |values| && GroupReady(targets, values)
    ensures Replace(Lines(targets, values, k - 1)[m], targets[k - 1], values[k - 1]) == Lines(targets, values, k)[m]
  {
    var t := targets[k - 1];
    if m < k - 1 {
      assert !Contains(values[m], t);
    } else if m == k - 1 {
      ReplaceWhole(t, values[k - 1]);
    } else {
      assert !Contains(targets[m], t);
    }
  }

  /** Filling marker `k - 1` in every line fills exactly line `k - 1`. */
  lemma LinesStep(targets: seq<string>, values: seq<string>, k: nat)
    requires 0 < k <= |values| && GroupReady(targets, values)
    ensures ReplaceEach(Lines(targets, values, k - 1), targets[k - 1], values[k - 1]) == Lines(targets, values, k)
  {
    var after := ReplaceEach(Lines(targets, values, k - 1), targets[k - 1], values[k - 1]);
    forall m | 0 <= m < |values| ensures after[m] == Lines(targets, values, k)[m] {
      LineFilled(targets, values, k, m);
    }
  }

  /** One more replacement fills one more line. */
  lemma GroupStep(targets: seq<string>, values: seq<string>, k: nat)
    requires 0 < k <= |values| && GroupReady(targets, values)
    requires Fill(Join(targets, "\n"), targets, values, k - 1) == Join(Lines(targets, values, k - 1), "\n")
    ensures Fill(Join(targets, "\n"), targets, values, k) == Join(Lines(targets, values, k), "\n")
  {
    assert "\n" == ['\n'];
    ReplaceJoin(Lines(targets, values, k - 1), '\n', targets[k - 1], values[k - 1]);
    LinesStep(targets, values, k);
  }

  /** The markers joined by newlines, with the first `k` filled, are the
      lines with the first `k` values in place. */
  lemma {:induction false} GroupFill(targets: seq<string>, values: seq<string>, k: nat)
    requires k <= |values| && GroupReady(targets, values)
    ensures Fill(Join(targets, "\n"), targets, values, k) == Join(Lines(targets, values, k), "\n")
    decreases k
  {
    if k == 0 {
      assert Lines(targets, values, 0) == targets;
    } else {
      GroupFill(targets, values, k - 1);
      GroupStep(targets, values, k);
    }
  }

  /** The replace targets meet the conditions for any values free of them. */
  lemma TargetsReady(values: seq<string>)
    requires forall m: nat, j: nat :: m < |values| ==> !Contains(values[m], Target(j))
    ensures GroupReady(Targets(|values|), values)
  {
    var targets := Targets(|values|);
    forall a, b | 0 <= a < |targets| && 0 <= b < |targets| && a != b ensures !Contains(targets[a], targets[b]) {
      TargetsDistinct(a, b);
    }
    forall a | 0 <= a < |targets| ensures '\n' !in targets[a] {
      TargetNoNewline(a);
    }
  }

  /** Filling all the markers of the joined markers gives the joined
      values. */
  lemma GroupFillAll(targets: seq<string>, values: seq<string>)
    requires GroupReady(targets, values)
    ensures Fill(Join(targets, "\n"), targets, values, |values|) == Join(values, "\n")
  {
    GroupFill(targets, values, |values|);
    assert Lines(targets, values, |values|) == values;
  }

  /** A group builds to its members' trimmed builds, one per line, when no
      member's trimmed build holds a replace target. */
  lemma GroupFlatten(g: TemplateGroup)
    requires forall m: nat, j: nat ::
               m < |g.members| ==> !Contains(Trim(Flatten(g.members[m])), Target(j))
    ensures Flatten(GroupTemplate(g)) == Join(TrimAll(FlattenAll(g.members)), "\n")
  {
    var n := |g.members|;
    var values := TrimAll(FlattenAll(g.members));
    assert Flatten(GroupTemplate(g)) == Fill(Join(Targets(n), "\n"), Targets(n), values, n);
    assert forall m: nat, j: nat :: m < n ==> !Contains(values[m], Target(j)) by {
      forall m: nat, j: nat | m < n ensures !Contains(values[m], Target(j)) {
        assert values[m] == Trim(Flatten(g.members[m]));
      }
    }
    TargetsReady(values);
    GroupFillAll(Targets(n), values);
  }

  /** An empty group builds to the empty string. */
  lemma EmptyGroupEmpty()
    ensures Flatten(GroupTemplate(TemplateGroup([]))) == ""
  {
  }

  /** Replacement is not hygienic: a parameter whose build holds a later
      target is itself substituted into.  Here target 0 is filled with the
      text of target 1, which parameter 1 then replaces. */
  lemma LaterTargetCaptured()
    ensures Flatten(Template(WithParameters(Target(0), [Template(RawString(Target(1))), Template(RawString("x"))]))) == "x"
  {
    var t1 := Target(1);
    var targets := Targets(2);
    var values := TrimAll(FlattenAll([Template(RawString(t1)), Template(RawString("x"))]));
    TrimmedTarget(1);
    assert Trim("x") == "x" by {
      assert !IsWhitespace('x');
      assert TrimStart("x") == "x";
    }
    assert values == [t1, "x"];
    ReplaceWhole(Target(0), t1);
    assert Fill(Target(0), targets, values, 1) == t1;
    ReplaceWhole(t1, "x");
  }

  /** A target begins and ends with a brace, so trimming leaves it alone. */
  lemma TrimmedTarget(i: nat)
    ensures Trim(Target(i)) == Target(i)
  {
    var t := Target(i);
    assert !IsWhitespace(t[0]);
    assert TrimStart(t) == t;
    assert !IsWhitespace(t[|t| - 1]);
  }
}
