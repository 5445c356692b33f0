/**
 * The command synthesizer: the style templates, `latex_char`, which turns
 * the part of an alias after a style prefix into a LaTeX symbol, and
 * `add_cmd`, which picks a style by the alias prefix and stores the
 * command, wrapped in `\(` and `\)`, in the character's `latex_cmd`.
 */
module Commands {
  import opened Wrappers
  import opened PyStr
  import opened PyFormat
  import opened Characters

  // The style templates, as `str.format` templates.
  const BF_CMD := @"\bm{{{{{}}}}}"
  const IT_CMD := @"\mathit{{{}}}"
  const SCR_CMD := @"\mathcal{{{}}}"
  const FRAK_CMD := @"\mathfrak{{{}}}"
  const BB_CMD := @"\mathbb{{{}}}"
  const SANS_CMD := @"\mathsf{{{}}}"
  const ISANS_CMD := @"\mathsfit{{{}}}"
  const TT_CMD := @"\mathtt{{{}}}"
  const N_CMD := @"\mathrm{{{}}}"

  /** Greek names that `upgreek` does not provide as `\up...` and that italic styles spell `\var...`. */
  const UPGREEK_BLACKLIST: seq<string> := ["Gamma", "Delta", "Theta", "Lambda", "Xi", "Pi", "Sigma",
                                           "Upsilon", "Phi", "Psi", "Omega", "varkappa", "varTheta"]

  /** `name{{{}}}`, the shape of every template but the bold one, formats as `name{x}`. */
  lemma Braced(name: string, x: string)
    requires BraceFree(name)
    ensures Format(name + "{{{}}}", [x]) == Ok(name + "{" + x + "}")
  {
    EscapeBraceFree(name);
    EscapeAppend(name, "{");
    assert Escape("{") == "{{";
    assert Escape("}") == "}}";
    assert OneField(name + "{", "}") == name + "{{{}}}";
    FormatOneField(name + "{", "}", x);
  }

  /** `name{{{{{}}}}}`, the bold template, formats as `name{{x}}`. */
  lemma DoubleBraced(name: string, x: string)
    requires BraceFree(name)
    ensures Format(name + "{{{{{}}}}}", [x]) == Ok(name + "{{" + x + "}}")
  {
    EscapeBraceFree(name);
    EscapeAppend(name, "{{");
    assert Escape("{{") == "{{{{";
    assert Escape("}}") == "}}}}";
    assert OneField(name + "{{", "}}") == name + "{{{{{}}}}}";
    FormatOneField(name + "{{", "}}", x);
  }

  // What each template makes of its argument: the bold one keeps the argument in double braces.

  lemma BoldTemplate(x: string)
    ensures Format(BF_CMD, [x]) == Ok(@"\bm{{" + x + "}}")
  {
    assert BF_CMD == @"\bm" + "{{{{{}}}}}";
    DoubleBraced(@"\bm", x);
    assert @"\bm" + "{{" == @"\bm{{";
    assert @"\bm" + "{{" + x == @"\bm{{" + x;
  }

  lemma ItalicTemplate(x: string)
    ensures Format(IT_CMD, [x]) == Ok(@"\mathit{" + x + "}")
  {
    assert IT_CMD == @"\mathit" + "{{{}}}";
    Braced(@"\mathit", x);
    assert @"\mathit" + "{" == @"\mathit{";
    assert @"\mathit" + "{" + x == @"\mathit{" + x;
  }

  lemma ScriptTemplate(x: string)
    ensures Format(SCR_CMD, [x]) == Ok(@"\mathcal{" + x + "}")
  {
    assert SCR_CMD == @"\mathcal" + "{{{}}}";
    Braced(@"\mathcal", x);
    assert @"\mathcal" + "{" == @"\mathcal{";
    assert @"\mathcal" + "{" + x == @"\mathcal{" + x;
  }

  lemma FrakturTemplate(x: string)
    ensures Format(FRAK_CMD, [x]) == Ok(@"\mathfrak{" + x + "}")
  {
    assert FRAK_CMD == @"\mathfrak" + "{{{}}}";
    Braced(@"\mathfrak", x);
    assert @"\mathfrak" + "{" == @"\mathfrak{";
    assert @"\mathfrak" + "{" + x == @"\mathfrak{" + x;
  }

  lemma BlackboardTemplate(x: string)
    ensures Format(BB_CMD, [x]) == Ok(@"\mathbb{" + x + "}")
  {
    assert BB_CMD == @"\mathbb" + "{{{}}}";
    Braced(@"\mathbb", x);
    assert @"\mathbb" + "{" == @"\mathbb{";
    assert @"\mathbb" + "{" + x == @"\mathbb{" + x;
  }

  lemma SansTemplate(x: string)
    ensures Format(SANS_CMD, [x]) == Ok(@"\mathsf{" + x + "}")
  {
    assert SANS_CMD == @"\mathsf" + "{{{}}}";
    Braced(@"\mathsf", x);
    assert @"\mathsf" + "{" == @"\mathsf{";
    assert @"\mathsf" + "{" + x == @"\mathsf{" + x;
  }

  lemma ItalicSansTemplate(x: string)
    ensures Format(ISANS_CMD, [x]) == Ok(@"\mathsfit{" + x + "}")
  {
    assert ISANS_CMD == @"\mathsfit" + "{{{}}}";
    Braced(@"\mathsfit", x);
    assert @"\mathsfit" + "{" == @"\mathsfit{";
    assert @"\mathsfit" + "{" + x == @"\mathsfit{" + x;
  }

  lemma TypewriterTemplate(x: string)
    ensures Format(TT_CMD, [x]) == Ok(@"\mathtt{" + x + "}")
  {
    assert TT_CMD == @"\mathtt" + "{{{}}}";
    Braced(@"\mathtt", x);
    assert @"\mathtt" + "{" == @"\mathtt{";
    assert @"\mathtt" + "{" + x == @"\mathtt{" + x;
  }

  lemma RomanTemplate(x: string)
    ensures Format(N_CMD, [x]) == Ok(@"\mathrm{" + x + "}")
  {
    assert N_CMD == @"\mathrm" + "{{{}}}";
    Braced(@"\mathrm", x);
    assert @"\mathrm" + "{" == @"\mathrm{";
    assert @"\mathrm" + "{" + x == @"\mathrm{" + x;
  }

  /** What `latex_char` returns: a string, or, for a decimal digit, an `int`. */
  datatype Piece = Text(text: string) | Digit(value: DigitValue)

  /** `str(p)`, which is what `format` makes of either kind of piece. */
  function Str(p: Piece): (r: string)
    ensures p.Text? ==> r == p.text
    ensures p.Digit? ==> |r| == 1 && '0' <= r[0] <= '9' && r[0] as int - '0' as int == p.value
  {
    match p
    case Text(t) => t
    case Digit(d) => [('0' as int + d) as char]
  }

  /** The prefixes after which a Greek name is set upright (`\up...`). */
  const UPRIGHT_PREFIXES: seq<string> := [@"\", @"\bf"]
  /** The prefixes after which a capital Greek name is set italic (`\var...`). */
  const ITALIC_PREFIXES: seq<string> := [@"\it", @"\bi"]

  /**
   * What `latex_char` puts between the backslash and a suffix longer than
   * one character: `up` for an upright prefix and a name `upgreek`
   * provides, `var` for an italic prefix and a capital without `var`.
   */
  function Modifier(prefix: string, suffix: string): string {
    if prefix in UPRIGHT_PREFIXES && suffix !in UPGREEK_BLACKLIST then "up"
    else if prefix in ITALIC_PREFIXES && suffix in UPGREEK_BLACKLIST && !Contains(suffix, "var") then "var"
    else ""
  }

  /** A backslash, a modifier and a suffix start with the backslash and end with the suffix. */
  lemma Framed(m: string, s: string)
    ensures StartsWith(@"\" + m + s, @"\") && EndsWith(@"\" + m + s, s)
  {
    var t := @"\" + m + s;
    assert t[|t| - |s|..] == s;
    StartsWithIff(t, @"\");
    assert t[..1] == @"\";
  }

  /**
   * `latex_char(char, prefix)`: the alias with `prefix` cut off, turned into a
   * LaTeX symbol; a decimal digit gives its value instead. Indexing a
   * category shorter than two letters raises IndexError, and a digit
   * category without a digit value raises ValueError, as
   * `unicodedata.digit` does.
   */
  function LatexChar(category: string, digit: Option<DigitValue>, alias: string, prefix: string): (r: Result<Piece>)
    ensures |category| < 2 ==> r == Raise(IndexError)
    ensures |category| >= 2 && category[1] == 'd' ==>
              r == (if digit.Some? then Ok(Digit(digit.value)) else Raise(ValueError))
    ensures |category| >= 2 && category[1] != 'd' ==>
              var s := From(alias, |prefix|);
              && r.Ok? && r.value.Text?
              && (|s| <= 1 ==> r.value.text == s)
              && (|s| > 1 ==> StartsWith(r.value.text, @"\") && EndsWith(r.value.text, s))
  {
    if |category| < 2 then Raise(IndexError)
    else if category[1] == 'd' then
      if digit.Some? then Ok(Digit(digit.value)) else Raise(ValueError)
    else
      var suffix := From(alias, |prefix|);
      if |suffix| > 1 then
        var t := @"\" + Modifier(prefix, suffix) + suffix;
        Framed(Modifier(prefix, suffix), suffix);
        Ok(Text(t))
      else Ok(Text(suffix))
  }

  /**
   * For a suffix longer than one character: an upright prefix and a name
   * `upgreek` provides give `\up` + suffix; an italic prefix and a capital
   * without `var` give `\var` + suffix; anything else gives `\` + suffix.
   */
  lemma LatexCharModifier(category: string, digit: Option<DigitValue>, alias: string, prefix: string)
    requires |category| >= 2 && category[1] != 'd'
    requires |From(alias, |prefix|)| > 1
    ensures var s := From(alias, |prefix|);
            var r := LatexChar(category, digit, alias, prefix);
            var up := prefix in UPRIGHT_PREFIXES && s !in UPGREEK_BLACKLIST;
            var italic := prefix in ITALIC_PREFIXES && s in UPGREEK_BLACKLIST && !Contains(s, "var");
            && (up ==> r == Ok(Text(@"\" + "up" + s)))
            && (italic ==> r == Ok(Text(@"\" + "var" + s)))
            && (!up && !italic ==> r == Ok(Text(@"\" + s)))
  {
    LatexCharText(category, digit, alias, prefix);
    ModifierCases(prefix, From(alias, |prefix|));
    assert @"\" + "" == @"\";
  }

  lemma LatexCharText(category: string, digit: Option<DigitValue>, alias: string, prefix: string)
    requires |category| >= 2 && category[1] != 'd'
    requires |From(alias, |prefix|)| > 1
    ensures var s := From(alias, |prefix|);
            LatexChar(category, digit, alias, prefix) == Ok(Text(@"\" + Modifier(prefix, s) + s))
  {
  }

  lemma ModifierCases(prefix: string, s: string)
    ensures var up := prefix in UPRIGHT_PREFIXES && s !in UPGREEK_BLACKLIST;
            var italic := prefix in ITALIC_PREFIXES && s in UPGREEK_BLACKLIST && !Contains(s, "var");
            && (up ==> Modifier(prefix, s) == "up")
            && (italic ==> Modifier(prefix, s) == "var")
            && (!up && !italic ==> Modifier(prefix, s) == "")
  {
  }

  /** `template.format(piece)`: formats the piece, or passes on what `latex_char` raised. */
  function FillPiece(template: string, piece: Result<Piece>): Result<string> {
    match piece
    case Ok(p) => Format(template, [Str(p)])
    case Raise(e) => Raise(e)
  }

  /** `template.format(text)` for text an inner template produced. */
  function FillText(template: string, text: Result<string>): Result<string> {
    match text
    case Ok(t) => Format(template, [t])
    case Raise(e) => Raise(e)
  }

  /** A command was built: `add_cmd` goes on to store it and return True. */
  function Found(cmd: Result<string>): Result<Option<string>> {
    match cmd
    case Ok(c) => Ok(Some(c))
    case Raise(e) => Raise(e)
  }

  /**
   * A branch of the style chain of `add_cmd`: the prefix handed to
   * `latex_char`, the style template, and whether the result is wrapped
   * in the bold template too; or the double-struck italic prefix, whose
   * longer aliases get no command.
   */
  datatype Rule = Style(prefix: string, template: string, bold: bool) | Unsupported(prefix: string)

  /** The branches of the style chain of `add_cmd`. */
  predicate IsStyleRule(r: Rule) {
    || r == Style(@"\tt", TT_CMD, false)
    || r == Style(@"\bisans", ISANS_CMD, true)
    || r == Style(@"\isans", ISANS_CMD, false)
    || r == Style(@"\bsans", SANS_CMD, true)
    || r == Style(@"\sans", SANS_CMD, false)
    || r == Style(@"\bfrak", FRAK_CMD, true)
    || r == Unsupported(@"\bbi")
    || r == Style(@"\bb", BB_CMD, false)
    || r == Style(@"\frak", FRAK_CMD, false)
    || r == Style(@"\bscr", SCR_CMD, true)
    || r == Style(@"\scr", SCR_CMD, false)
    || r == Style(@"\bi", IT_CMD, true)
    || r == Style(@"\bf", N_CMD, true)
    || r == Style(@"\it", IT_CMD, false)
  }

  /** A rule takes an alias that starts with its prefix; the unsupported one only a strictly longer alias. */
  predicate Applies(rule: Rule, ipc: string) {
    match rule
    case Style(p, _, _) => StartsWith(ipc, p)
    case Unsupported(p) => StartsWith(ipc, p) && ipc != p
  }

  /**
   * The `elif ipc.startswith(...)` chain of `add_cmd`: the branch an alias
   * takes, or None when it falls through to the unstyled cases. The
   * typewriter branch passes `ipc[:3]`, which is `\tt` there.
   */
  function Branch(ipc: string): (b: Option<Rule>)
    ensures b.Some? ==> IsStyleRule(b.value) && Applies(b.value, ipc)
  {
    if StartsWith(ipc, @"\tt") then
      assert UpTo(ipc, 3) == @"\tt";
      Some(Style(UpTo(ipc, 3), TT_CMD, false))
    else if StartsWith(ipc, @"\bisans") then Some(Style(@"\bisans", ISANS_CMD, true))
    else if StartsWith(ipc, @"\isans") then Some(Style(@"\isans", ISANS_CMD, false))
    else if StartsWith(ipc, @"\bsans") then Some(Style(@"\bsans", SANS_CMD, true))
    else if StartsWith(ipc, @"\sans") then Some(Style(@"\sans", SANS_CMD, false))
    else if StartsWith(ipc, @"\bfrak") then Some(Style(@"\bfrak", FRAK_CMD, true))
    else if StartsWith(ipc, @"\bbi") && ipc != @"\bbi" then Some(Unsupported(@"\bbi"))
    else if StartsWith(ipc, @"\bb") then Some(Style(@"\bb", BB_CMD, false))
    else if StartsWith(ipc, @"\frak") then Some(Style(@"\frak", FRAK_CMD, false))
    else if StartsWith(ipc, @"\bscr") then Some(Style(@"\bscr", SCR_CMD, true))
    else if StartsWith(ipc, @"\scr") then Some(Style(@"\scr", SCR_CMD, false))
    else if StartsWith(ipc, @"\bi") then Some(Style(@"\bi", IT_CMD, true))
    else if StartsWith(ipc, @"\bf") then Some(Style(@"\bf", N_CMD, true))
    else if StartsWith(ipc, @"\it") then Some(Style(@"\it", IT_CMD, false))
    else None
  }

  /**
   * What a branch builds: `template.format(latex_char(char, prefix))`,
   * inside `BF_CMD.format(...)` for the bold ones; the unsupported one
   * returns False.
   */
  function Styled(rule: Rule, category: string, digit: Option<DigitValue>, ipc: string): Result<Option<string>> {
    match rule
    case Style(p, t, bold) =>
      var cmd := FillPiece(t, LatexChar(category, digit, ipc, p));
      Found(if bold then FillText(BF_CMD, cmd) else cmd)
    case Unsupported(_) => Ok(None)
  }

  /**
   * The last two branches of `add_cmd`, for an alias no style prefix
   * matched: a name outside the MATHEMATICAL block keeps the alias (a
   * Greek one through `latex_char` with prefix `\`); a MATHEMATICAL one
   * gets no command. A digit piece raises TypeError where it meets `r'\('`.
   */
  function Unstyled(category: string, name: string, digit: Option<DigitValue>, ipc: string): Result<Option<string>> {
    if !StartsWith(name, "MATHEMATICAL") then
      if StartsWith(name, "GREEK") then
        match LatexChar(category, digit, ipc, @"\")
        case Ok(Text(t)) => Ok(Some(t))
        case Ok(Digit(_)) => Raise(TypeError)
        case Raise(e) => Raise(e)
      else Ok(Some(ipc))
    else Ok(None)
  }

  /**
   * `add_cmd`, without its store into `latex_cmd`: Ok(Some(cmd)) where it
   * returns True after building `cmd`, Ok(None) where it returns False.
   * A missing alias or one shorter than two characters raises at `ipc[1]`;
   * a super- or subscript digit raises TypeError at the concatenation.
   */
  function Command(category: string, name: string, digit: Option<DigitValue>, alias: Option<string>): Result<Option<string>> {
    if alias.None? then Raise(TypeError)
    else
      var ipc := alias.value;
      if |ipc| < 2 then Raise(IndexError)
      else if ipc[1] == '^' || ipc[1] == '_' then
        match LatexChar(category, digit, ipc, UpTo(ipc, 2))
        case Ok(Text(t)) => Ok(Some("{}" + [ipc[1]] + t))
        case Ok(Digit(_)) => Raise(TypeError)
        case Raise(e) => Raise(e)
      else
        match Branch(ipc)
        case Some(rule) => Styled(rule, category, digit, ipc)
        case None => Unstyled(category, name, digit, ipc)
  }

  /** `\(` + cmd + `\)`: the inline-math delimiters every stored command gets. */
  function Delimit(cmd: string): (r: string)
    ensures StartsWith(r, @"\(") && EndsWith(r, @"\)") && |r| == |cmd| + 4
    ensures r[2..|r| - 2] == cmd
  {
    var r := @"\(" + cmd + @"\)";
    assert r[|r| - 2..] == @"\)";
    r
  }

  /** `add_cmd(char)`: stores the command in `latex_cmd` and returns True, or returns False, or raises. */
  method AddCmd(ch: Character, ucd: Ucd) returns (r: Result<bool>)
    modifies ch`latexCmd
    ensures var out := Command(ch.category, ch.name, ucd(ch.character).digit, ch.ipythonCmd);
            && (r.Ok? <==> out.Ok?)
            && (r.Raise? ==> r.error == out.error)
            && (r.Ok? ==> r.value == out.value.Some?)
            && ch.latexCmd == if out.Ok? && out.value.Some? then Some(Delimit(out.value.value)) else old(ch.latexCmd)
  {
    var out := Command(ch.category, ch.name, ucd(ch.character).digit, ch.ipythonCmd);
    match out
    case Raise(e) =>
      r := Raise(e);
    case Ok(None) =>
      r := Ok(false);
    case Ok(Some(cmd)) =>
      ch.latexCmd := Some(Delimit(cmd));
      r := Ok(true);
  }


  /** An alias that starts with `p` does not start with a prefix `q` that neither extends nor is extended by `p`. */
  lemma Disjoint(s: string, p: string, q: string)
    requires StartsWith(s, p) && !StartsWith(p, q) && !StartsWith(q, p)
    ensures !StartsWith(s, q)
  {
  }

  /** Two prefixes of one string: the shorter is a prefix of the longer. */
  lemma Nested(s: string, p: string, q: string)
    requires StartsWith(s, p) && StartsWith(s, q) && |q| <= |p|
    ensures StartsWith(p, q)
  {
    StartsWithIff(s, p);
    StartsWithIff(s, q);
    StartsWithIff(p, q);
    assert p[..|q|] == s[..|q|];
  }

  /** Of two style prefixes of different lengths, the longer does not start with the shorter, but for three pairs. */
  lemma PrefixesApart()
    ensures !StartsWith(@"\bisans", @"\tt")
    ensures !StartsWith(@"\bisans", @"\isans")
    ensures !StartsWith(@"\bisans", @"\bsans")
    ensures !StartsWith(@"\bisans", @"\sans")
    ensures !StartsWith(@"\bisans", @"\bfrak")
    ensures !StartsWith(@"\bisans", @"\bbi")
    ensures !StartsWith(@"\bisans", @"\bb")
    ensures !StartsWith(@"\bisans", @"\frak")
    ensures !StartsWith(@"\bisans", @"\bscr")
    ensures !StartsWith(@"\bisans", @"\scr")
    ensures !StartsWith(@"\bisans", @"\bf")
    ensures !StartsWith(@"\bisans", @"\it")
    ensures !StartsWith(@"\isans", @"\tt")
    ensures !StartsWith(@"\isans", @"\sans")
    ensures !StartsWith(@"\isans", @"\bbi")
    ensures !StartsWith(@"\isans", @"\bb")
    ensures !StartsWith(@"\isans", @"\frak")
    ensures !StartsWith(@"\isans", @"\bscr")
    ensures !StartsWith(@"\isans", @"\scr")
    ensures !StartsWith(@"\isans", @"\bi")
    ensures !StartsWith(@"\isans", @"\bf")
    ensures !StartsWith(@"\isans", @"\it")
    ensures !StartsWith(@"\bsans", @"\tt")
    ensures !StartsWith(@"\bsans", @"\sans")
    ensures !StartsWith(@"\bsans", @"\bbi")
    ensures !StartsWith(@"\bsans", @"\bb")
    ensures !StartsWith(@"\bsans", @"\frak")
    ensures !StartsWith(@"\bsans", @"\bscr")
    ensures !StartsWith(@"\bsans", @"\scr")
    ensures !StartsWith(@"\bsans", @"\bi")
    ensures !StartsWith(@"\bsans", @"\bf")
    ensures !StartsWith(@"\bsans", @"\it")
    ensures !StartsWith(@"\sans", @"\tt")
    ensures !StartsWith(@"\sans", @"\bbi")
    ensures !StartsWith(@"\sans", @"\bb")
    ensures !StartsWith(@"\sans", @"\scr")
    ensures !StartsWith(@"\sans", @"\bi")
    ensures !StartsWith(@"\sans", @"\bf")
    ensures !StartsWith(@"\sans", @"\it")
    ensures !StartsWith(@"\bfrak", @"\tt")
    ensures !StartsWith(@"\bfrak", @"\sans")
    ensures !StartsWith(@"\bfrak", @"\bbi")
    ensures !StartsWith(@"\bfrak", @"\bb")
    ensures !StartsWith(@"\bfrak", @"\frak")
    ensures !StartsWith(@"\bfrak", @"\bscr")
    ensures !StartsWith(@"\bfrak", @"\scr")
    ensures !StartsWith(@"\bfrak", @"\bi")
    ensures !StartsWith(@"\bfrak", @"\it")
    ensures !StartsWith(@"\bbi", @"\tt")
    ensures !StartsWith(@"\bbi", @"\bi")
    ensures !StartsWith(@"\bbi", @"\bf")
    ensures !StartsWith(@"\bbi", @"\it")
    ensures !StartsWith(@"\frak", @"\tt")
    ensures !StartsWith(@"\frak", @"\bbi")
    ensures !StartsWith(@"\frak", @"\bb")
    ensures !StartsWith(@"\frak", @"\scr")
    ensures !StartsWith(@"\frak", @"\bi")
    ensures !StartsWith(@"\frak", @"\bf")
    ensures !StartsWith(@"\frak", @"\it")
    ensures !StartsWith(@"\bscr", @"\tt")
    ensures !StartsWith(@"\bscr", @"\bbi")
    ensures !StartsWith(@"\bscr", @"\bb")
    ensures !StartsWith(@"\bscr", @"\scr")
    ensures !StartsWith(@"\bscr", @"\bi")
    ensures !StartsWith(@"\bscr", @"\bf")
    ensures !StartsWith(@"\bscr", @"\it")
    ensures !StartsWith(@"\scr", @"\tt")
    ensures !StartsWith(@"\scr", @"\bb")
    ensures !StartsWith(@"\scr", @"\bi")
    ensures !StartsWith(@"\scr", @"\bf")
    ensures !StartsWith(@"\scr", @"\it")
  {
  }

  /** The only style prefixes that extend another one. */
  lemma {:induction false} Overlaps(r: Rule, q: Rule)
    requires IsStyleRule(r) && IsStyleRule(q)
    requires |r.prefix| > |q.prefix| && StartsWith(r.prefix, q.prefix)
    ensures || (r.prefix == @"\bisans" && q.prefix == @"\bi")
            || (r.prefix == @"\bfrak" && q.prefix == @"\bf")
            || (r.prefix == @"\bbi" && q.prefix == @"\bb")
  {
    PrefixesApart();
  }

  // Where two style prefixes overlap, the longer one is tested first and wins.

  lemma BoldItalicSansFirst(ipc: string)
    requires StartsWith(ipc, @"\bisans")
    ensures Branch(ipc) == Some(Style(@"\bisans", ISANS_CMD, true))
  {
    Disjoint(ipc, @"\bisans", @"\tt");
  }

  lemma BoldFrakturFirst(ipc: string)
    requires StartsWith(ipc, @"\bfrak")
    ensures Branch(ipc) == Some(Style(@"\bfrak", FRAK_CMD, true))
  {
    Disjoint(ipc, @"\bfrak", @"\tt");
    Disjoint(ipc, @"\bfrak", @"\bisans");
    Disjoint(ipc, @"\bfrak", @"\isans");
    Disjoint(ipc, @"\bfrak", @"\bsans");
    Disjoint(ipc, @"\bfrak", @"\sans");
  }

  /** A double-struck italic alias longer than `\bbi` takes the unsupported branch; `\bbi` alone is the blackboard letter `i`. */
  lemma DoubleStruckItalicFirst(ipc: string)
    requires StartsWith(ipc, @"\bbi")
    ensures ipc != @"\bbi" ==> Branch(ipc) == Some(Unsupported(@"\bbi"))
    ensures ipc == @"\bbi" ==> Branch(ipc) == Some(Style(@"\bb", BB_CMD, false))
  {
    Disjoint(ipc, @"\bbi", @"\tt");
    Disjoint(ipc, @"\bbi", @"\bisans");
    Disjoint(ipc, @"\bbi", @"\isans");
    Disjoint(ipc, @"\bbi", @"\bsans");
    Disjoint(ipc, @"\bbi", @"\sans");
    Disjoint(ipc, @"\bbi", @"\bfrak");
  }

  /**
   * The chain tests overlapping prefixes longest first, so the branch an
   * alias takes is the applicable rule with the longest prefix.
   */
  lemma {:induction false} BranchIsLongestMatch(ipc: string)
    ensures Branch(ipc).Some? ==>
              forall r :: IsStyleRule(r) && Applies(r, ipc) ==> |r.prefix| <= |Branch(ipc).value.prefix|
  {
    if Branch(ipc).Some? {
      var b := Branch(ipc).value;
      forall r | IsStyleRule(r) && Applies(r, ipc)
        ensures |r.prefix| <= |b.prefix|
      {
        if |r.prefix| > |b.prefix| {
          Nested(ipc, r.prefix, b.prefix);
          Overlaps(r, b);
          if r.prefix == @"\bisans" {
            BoldItalicSansFirst(ipc);
          } else if r.prefix == @"\bfrak" {
            BoldFrakturFirst(ipc);
          } else {
            DoubleStruckItalicFirst(ipc);
          }
        }
      }
    }
  }

  /** Every style template but the bold one has exactly one field, so formatting one argument succeeds. */
  lemma StyleTemplateFormats(rule: Rule, x: string)
    requires IsStyleRule(rule) && rule.Style?
    ensures Format(rule.template, [x]).Ok?
  {
    if rule.template == TT_CMD { TypewriterTemplate(x); }
    else if rule.template == ISANS_CMD { ItalicSansTemplate(x); }
    else if rule.template == SANS_CMD { SansTemplate(x); }
    else if rule.template == FRAK_CMD { FrakturTemplate(x); }
    else if rule.template == BB_CMD { BlackboardTemplate(x); }
    else if rule.template == SCR_CMD { ScriptTemplate(x); }
    else if rule.template == IT_CMD { ItalicTemplate(x); }
    else { RomanTemplate(x); }
  }

  /**
   * For a letter (a category whose second letter is not `d`) with an alias
   * of two characters or more, `add_cmd` does not raise.
   */
  lemma {:induction false} LetterCommandSucceeds(category: string, name: string, digit: Option<DigitValue>, ipc: string)
    requires |category| >= 2 && category[1] != 'd' && |ipc| >= 2
    ensures Command(category, name, digit, Some(ipc)).Ok?
  {
    if ipc[1] != '^' && ipc[1] != '_' && Branch(ipc).Some? {
      StyledSucceeds(Branch(ipc).value, category, digit, ipc);
    }
  }

  /** Every branch of the style chain builds its command for a letter, or declines. */
  lemma StyledSucceeds(rule: Rule, category: string, digit: Option<DigitValue>, ipc: string)
    requires IsStyleRule(rule) && |category| >= 2 && category[1] != 'd'
    ensures Styled(rule, category, digit, ipc).Ok?
  {
    if rule.Style? {
      var piece := LatexChar(category, digit, ipc, rule.prefix);
      StyleTemplateFormats(rule, Str(piece.value));
      if rule.bold {
        BoldTemplate(Format(rule.template, [Str(piece.value)]).value);
      }
    }
  }

  /** A style branch builds a command or raises; only the unsupported branch returns False. */
  lemma StyledDeclines(rule: Rule, category: string, digit: Option<DigitValue>, ipc: string)
    ensures Styled(rule, category, digit, ipc) == Ok(None) <==> rule.Unsupported?
  {
  }

  /** The unsupported branch is taken exactly by the aliases longer than `\bbi` that start with it. */
  lemma BranchUnsupported(ipc: string)
    ensures Branch(ipc) == Some(Unsupported(@"\bbi")) <==> StartsWith(ipc, @"\bbi") && ipc != @"\bbi"
  {
    if StartsWith(ipc, @"\bbi") {
      DoubleStruckItalicFirst(ipc);
    }
  }

  /** The chain falls through exactly when no style rule applies. */
  lemma BranchNone(ipc: string)
    ensures Branch(ipc).None? <==> forall r :: IsStyleRule(r) ==> !Applies(r, ipc)
  {
    if Branch(ipc).Some? {
      assert IsStyleRule(Branch(ipc).value) && Applies(Branch(ipc).value, ipc);
    } else {
      assert !StartsWith(ipc, @"\tt") && !StartsWith(ipc, @"\bisans") && !StartsWith(ipc, @"\isans");
      assert !StartsWith(ipc, @"\bsans") && !StartsWith(ipc, @"\sans") && !StartsWith(ipc, @"\bfrak");
      assert !(StartsWith(ipc, @"\bbi") && ipc != @"\bbi") && !StartsWith(ipc, @"\bb") && !StartsWith(ipc, @"\frak");
      assert !StartsWith(ipc, @"\bscr") && !StartsWith(ipc, @"\scr") && !StartsWith(ipc, @"\bi");
      assert !StartsWith(ipc, @"\bf") && !StartsWith(ipc, @"\it");
    }
  }

  /** `add_cmd` returns False where the unsupported branch is taken, or where a MATHEMATICAL name falls through the chain. */
  lemma CommandDeclinesByBranch(category: string, name: string, digit: Option<DigitValue>, ipc: string)
    ensures Command(category, name, digit, Some(ipc)) == Ok(None) <==>
              && |ipc| >= 2 && ipc[1] != '^' && ipc[1] != '_'
              && (|| Branch(ipc) == Some(Unsupported(@"\bbi"))
                  || (Branch(ipc).None? && StartsWith(name, "MATHEMATICAL")))
  {
    if |ipc| >= 2 && ipc[1] != '^' && ipc[1] != '_' && Branch(ipc).Some? {
      StyledDeclines(Branch(ipc).value, category, digit, ipc);
    }
  }

  /**
   * `add_cmd` returns False exactly for a double-struck italic alias longer
   * than `\bbi`, and for a MATHEMATICAL character whose alias has no style
   * prefix and is no super- or subscript.
   */
  lemma CommandDeclines(category: string, name: string, digit: Option<DigitValue>, ipc: string)
    ensures Command(category, name, digit, Some(ipc)) == Ok(None) <==>
              || (StartsWith(ipc, @"\bbi") && ipc != @"\bbi")
              || (&& |ipc| >= 2 && ipc[1] != '^' && ipc[1] != '_'
                  && (forall r :: IsStyleRule(r) ==> !Applies(r, ipc))
                  && StartsWith(name, "MATHEMATICAL"))
  {
    CommandDeclinesByBranch(category, name, digit, ipc);
    BranchUnsupported(ipc);
    BranchNone(ipc);
    if StartsWith(ipc, @"\bbi") {
      StartsWithIff(ipc, @"\bbi");
      assert ipc[1] == 'b';
    }
  }

  /**
   * An alias no style prefix matches, on a letter outside the MATHEMATICAL
   * block: a GREEK name is set upright unless `upgreek` lacks it; any other
   * name keeps IPython's alias as its command.
   */
  lemma FallbackCommand(category: string, name: string, digit: Option<DigitValue>, ipc: string)
    requires |category| >= 2 && category[1] != 'd'
    requires |ipc| >= 2 && ipc[1] != '^' && ipc[1] != '_' && Branch(ipc).None?
    requires !StartsWith(name, "MATHEMATICAL")
    ensures var r := Command(category, name, digit, Some(ipc));
            && (!StartsWith(name, "GREEK") ==> r == Ok(Some(ipc)))
            && (StartsWith(name, "GREEK") && |ipc| > 2 && ipc[1..] !in UPGREEK_BLACKLIST ==> r == Ok(Some(@"\" + "up" + ipc[1..])))
            && (StartsWith(name, "GREEK") && |ipc| > 2 && ipc[1..] in UPGREEK_BLACKLIST ==> r == Ok(Some(@"\" + ipc[1..])))
            && (StartsWith(name, "GREEK") && |ipc| == 2 ==> r == Ok(Some(ipc[1..])))
  {
    var s := From(ipc, |@"\"|);
    assert s == ipc[1..] by {
      assert ipc == UpTo(ipc, 1) + s;
    }
    if StartsWith(name, "GREEK") && |ipc| > 2 {
      LatexCharModifier(category, digit, ipc, @"\");
    } else if StartsWith(name, "GREEK") {
      ShortGreekFallback(category, name, digit, ipc);
    }
  }

  /** A two-character alias of a Greek letter leaves only its second character to `latex_char`. */
  lemma ShortGreekFallback(category: string, name: string, digit: Option<DigitValue>, ipc: string)
    requires |category| >= 2 && category[1] != 'd'
    requires |ipc| == 2 && ipc[1] != '^' && ipc[1] != '_' && Branch(ipc).None?
    requires !StartsWith(name, "MATHEMATICAL") && StartsWith(name, "GREEK")
    ensures Command(category, name, digit, Some(ipc)) == Ok(Some(ipc[1..]))
  {
    assert From(ipc, |@"\"|) == ipc[1..] by {
      assert ipc == UpTo(ipc, 1) + From(ipc, |@"\"|);
    }
  }

  /**
   * The same fall-through for a digit: a non-Greek name keeps the alias,
   * while for a GREEK name `latex_char` returns the digit value, and
   * `r'\(' + int` raises TypeError (ValueError already where the
   * character has no digit value).
   */
  lemma DigitFallbackCommand(category: string, name: string, digit: Option<DigitValue>, ipc: string)
    requires |category| >= 2 && category[1] == 'd'
    requires |ipc| >= 2 && ipc[1] != '^' && ipc[1] != '_' && Branch(ipc).None?
    requires !StartsWith(name, "MATHEMATICAL")
    ensures var r := Command(category, name, digit, Some(ipc));
            && (!StartsWith(name, "GREEK") ==> r == Ok(Some(ipc)))
            && (StartsWith(name, "GREEK") ==> r == Raise(if digit.Some? then TypeError else ValueError))
  {
  }

  /**
   * A sub- or superscript alias `\^x` / `\_x` of a letter gives `{}^` or
   * `{}_` followed by the rest of the alias; a rest longer than one
   * character gets a backslash, and never `up` or `var`, since the
   * two-character prefix is neither an upright nor an italic one.
   */
  lemma ScriptCommand(category: string, name: string, digit: Option<DigitValue>, ipc: string)
    requires |category| >= 2 && category[1] != 'd'
    requires |ipc| >= 2 && (ipc[1] == '^' || ipc[1] == '_')
    ensures var r := Command(category, name, digit, Some(ipc));
            && (|ipc| <= 3 ==> r == Ok(Some("{}" + [ipc[1]] + ipc[2..])))
            && (|ipc| > 3 ==> r == Ok(Some("{}" + [ipc[1]] + (@"\" + ipc[2..]))))
  {
    var p := UpTo(ipc, 2);
    var s := From(ipc, |p|);
    assert s == ipc[2..] by {
      assert ipc == p + s;
    }
    if |ipc| > 3 {
      LatexCharText(category, digit, ipc, p);
      assert p !in UPRIGHT_PREFIXES && p !in ITALIC_PREFIXES by {
        assert |@"\"| == 1 && |@"\bf"| == 3 && |@"\it"| == 3 && |@"\bi"| == 3;
      }
      assert Modifier(p, s) == "";
      assert @"\" + "" == @"\";
    }
  }

  /** A sub- or superscript alias of a digit: `'{}' + ipc[1] + int` raises TypeError, or `ud.digit` raises ValueError first. */
  lemma ScriptDigitRaises(category: string, name: string, digit: Option<DigitValue>, ipc: string)
    requires |category| >= 2 && category[1] == 'd'
    requires |ipc| >= 2 && (ipc[1] == '^' || ipc[1] == '_')
    ensures Command(category, name, digit, Some(ipc)) == Raise(if digit.Some? then TypeError else ValueError)
  {
  }

  /** `\bm{{` + x + `}}` starts and ends as the bold template does. */
  lemma BoldShape(x: string)
    ensures StartsWith(@"\bm{{" + x + "}}", @"\bm{{") && EndsWith(@"\bm{{" + x + "}}", "}}")
  {
    var out := @"\bm{{" + x + "}}";
    StartsWithIff(out, @"\bm{{");
    assert out[..|@"\bm{{"|] == @"\bm{{";
    assert out[|out| - 2..] == "}}";
  }

  /** A bold style wraps the styled symbol in `\bm{{...}}`. */
  lemma BoldCommandShape(category: string, name: string, digit: Option<DigitValue>, ipc: string)
    requires |category| >= 2 && category[1] != 'd' && |ipc| >= 2 && ipc[1] != '^' && ipc[1] != '_'
    requires Branch(ipc).Some? && Branch(ipc).value.Style? && Branch(ipc).value.bold
    ensures var r := Command(category, name, digit, Some(ipc));
            r.Ok? && r.value.Some? && StartsWith(r.value.value, @"\bm{{") && EndsWith(r.value.value, "}}")
  {
    var rule := Branch(ipc).value;
    var piece := LatexChar(category, digit, ipc, rule.prefix);
    StyleTemplateFormats(rule, Str(piece.value));
    var inner := Format(rule.template, [Str(piece.value)]).value;
    BoldTemplate(inner);
    BoldShape(inner);
    assert Command(category, name, digit, Some(ipc)) == Ok(Some(@"\bm{{" + inner + "}}"));
  }

  // Aliases as IPython spells them, and what the script makes of them.

  /** The literal joins the examples below rely on. */
  lemma Spellings()
    ensures @"\mathfrak{" + "A" + "}" == @"\mathfrak{A}"
    ensures @"\bm{{" + @"\mathfrak{A}" + "}}" == @"\bm{{\mathfrak{A}}}"
    ensures @"\mathbb{" + "1" + "}" == @"\mathbb{1}"
    ensures "{}" + "^" + "h" == "{}^h"
  {
  }

  lemma BoldFrakturExample()
    ensures Command("Lu", "MATHEMATICAL BOLD FRAKTUR CAPITAL A", None, Some(@"\bfrakA")) == Ok(Some(@"\bm{{\mathfrak{A}}}"))
  {
    Spellings();
    assert StartsWith(@"\bfrakA", @"\bfrak");
    BoldFrakturFirst(@"\bfrakA");
    assert From(@"\bfrakA", 6) == "A";
    assert L: LatexChar("Lu", None, @"\bfrakA", @"\bfrak") == Ok(Text("A"));
    FrakturTemplate("A");
    BoldTemplate(@"\mathfrak{A}");
    assert I: FillPiece(FRAK_CMD, Ok(Text("A"))) == Ok(@"\mathfrak{A}");
    assert FillText(BF_CMD, Ok(@"\mathfrak{A}")) == Ok(@"\bm{{\mathfrak{A}}}");
  }

  /** `\bbone` passes the earlier prefixes of the chain and takes the double-struck branch. */
  lemma BlackboardBranch()
    ensures Branch(@"\bbone") == Some(Style(@"\bb", BB_CMD, false))
  {
    var ipc := @"\bbone";
    assert !StartsWith(ipc, @"\tt") && !StartsWith(ipc, @"\bisans") && !StartsWith(ipc, @"\isans");
    assert !StartsWith(ipc, @"\bsans") && !StartsWith(ipc, @"\sans") && !StartsWith(ipc, @"\bfrak");
    assert !StartsWith(ipc, @"\bbi") && StartsWith(ipc, @"\bb");
  }

  lemma DoubleStruckDigitExample()
    ensures Command("Nd", "MATHEMATICAL DOUBLE-STRUCK DIGIT ONE", Some(1), Some(@"\bbone")) == Ok(Some(@"\mathbb{1}"))
  {
    Spellings();
    BlackboardBranch();
    assert LatexChar("Nd", Some(1), @"\bbone", @"\bb") == Ok(Digit(1));
    assert Str(Digit(1)) == "1";
    BlackboardTemplate("1");
    assert FillPiece(BB_CMD, Ok(Digit(1))) == Ok(@"\mathbb{1}");
  }

  /** `latex_char` sets a Greek name upright after `\bf`. */
  lemma UprightGreekExample()
    ensures LatexChar("Ll", None, @"\bfalpha", @"\bf") == Ok(Text(@"\" + "up" + "alpha"))
  {
    assert From(@"\bfalpha", 3) == "alpha";
    assert "alpha" !in UPGREEK_BLACKLIST;
    assert @"\bf" in UPRIGHT_PREFIXES;
    LatexCharModifier("Ll", None, @"\bfalpha", @"\bf");
  }

  /** `latex_char` spells an italic capital that `upgreek` lacks as `\var...`. */
  lemma VariantGreekExample()
    ensures LatexChar("Lu", None, @"\itGamma", @"\it") == Ok(Text(@"\" + "var" + "Gamma"))
  {
    assert From(@"\itGamma", 3) == "Gamma";
    assert "Gamma" in UPGREEK_BLACKLIST;
    assert @"\it" !in UPRIGHT_PREFIXES && @"\it" in ITALIC_PREFIXES;
    GammaHasNoVar();
    LatexCharModifier("Lu", None, @"\itGamma", @"\it");
  }

  lemma GammaHasNoVar()
    ensures !Contains("Gamma", "var")
  {
    ContainsIff("Gamma", "var");
    assert forall i :: 0 <= i <= 2 ==> "Gamma"[i] != 'v';
  }

  lemma SuperscriptExample()
    ensures Command("Lm", "MODIFIER LETTER SMALL H", None, Some(@"\^h")) == Ok(Some("{}^h"))
  {
    Spellings();
    assert From(@"\^h", 2) == "h";
  }

  lemma DoubleStruckItalicExample()
    ensures Command("Lu", "DOUBLE-STRUCK ITALIC CAPITAL D", None, Some(@"\bbiD")) == Ok(None)
  {
    assert StartsWith(@"\bbiD", @"\bbi");
    DoubleStruckItalicFirst(@"\bbiD");
  }
}
