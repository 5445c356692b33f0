/**
 * The selection of the script: the main loop over IPython's alias table,
 * which screens each character by category and by the words of its
 * Unicode name, renames `\upepsilon`, and keeps the ones `add_cmd` gives
 * a command; then the patch loop, which appends five characters with
 * `\(` + their IPython alias + `\)` as the command.
 */
module Filter {
  import opened Wrappers
  import opened PyStr
  import opened Characters
  import opened Commands

  /** The categories kept: upper-case, lower-case and modifier letters, and decimal digits. */
  const KEPT_CATEGORIES: set<string> := {"Lu", "Ll", "Lm", "Nd"}

  /** The next-to-last name words of an ordinary letter or digit. */
  const LETTER_WORDS: set<string> := {"LETTER", "CAPITAL", "SMALL", "DIGIT"}

  /** Alias endings of Greek letters that look like Latin ones, archaic letters and `varTheta`. */
  const GREEK_BLACKLIST: set<string> := {"Alpha", "Beta", "Epsilon", "Zeta", "Eta", "Iota", "Kappa",
                                         "Mu", "Nu", "Omicron", "omicron", "Rho", "Tau", "Chi",
                                         "Stigma", "Digamma", "digamma", "Koppa", "Sampi",
                                         "varTheta"}

  /** The characters the patch loop appends. */
  const PATCH_CHARS: seq<char> := ['ħ', 'ℵ', 'ℶ', 'ℷ', 'ℸ']

  /** What screening decides: skip the character, or go on to `add_cmd` with this alias. */
  datatype Verdict = Excluded | Included(alias: Option<string>)

  function Last(w: seq<string>): string
    requires |w| >= 1
  {
    w[|w| - 1]
  }

  function NextToLast(w: seq<string>): string
    requires |w| >= 2
  {
    w[|w| - 2]
  }

  /** A LATIN name passes when it is a subscript or a modifier letter, and not a schwa. */
  predicate LatinKept(category: string, w: seq<string>)
    requires |w| >= 2
  {
    (w[1] == "SUBSCRIPT" || category == "Lm") && Last(w) != "SCHWA"
  }

  /** For a name not ending in LETTER/CAPITAL/SMALL/DIGIT + one word: a superscript alias, a SYMBOL variant, or a FINAL sigma. */
  predicate OddShapeKept(w: seq<string>, ipc: string)
    requires |w| >= 2
  {
    StartsWith(ipc, @"\^") || Last(w) == "SYMBOL" || NextToLast(w) == "FINAL"
  }

  /** An alias with `up` in it but not ending in `upsilon`: an `upgreek` name already. */
  predicate UprightAlias(ipc: string) {
    !EndsWith(ipc, "upsilon") && Contains(ipc, "up")
  }

  /** The alias ends with a blacklisted Greek name. */
  predicate Blacklisted(ipc: string) {
    exists g :: g in GREEK_BLACKLIST && EndsWith(ipc, g)
  }

  /** A sans-serif Greek letter (the last word longer than one letter, the name no digit). */
  predicate SansSerifGreek(w: seq<string>)
    requires |w| >= 2
  {
    w[1] == "SANS-SERIF" && |Last(w)| > 1 && NextToLast(w) != "DIGIT"
  }

  predicate GreekOrMath(w: seq<string>)
    requires |w| >= 1
  {
    w[0] == "GREEK" || w[0] == "MATHEMATICAL"
  }

  /** The last two tests: a TURNED letter and an APOSTROPHE are skipped. */
  function Final(w: seq<string>, alias: Option<string>): (v: Verdict)
    requires |w| >= 2
    ensures v.Included? <==> w[0] != "TURNED" && Last(w) != "APOSTROPHE"
    ensures v.Included? ==> v.alias == alias
  {
    if w[0] == "TURNED" || Last(w) == "APOSTROPHE" then Excluded else Included(alias)
  }

  /**
   * The GREEK/MATHEMATICAL block: an alias already spelt `\up...` is
   * skipped, except `\upepsilon`, which becomes `\epsilon`; the blacklist
   * is tested against the alias as it was before that renaming; sans-serif
   * Greek letters are skipped.
   */
  function GreekStage(w: seq<string>, alias: Option<string>): Result<Verdict>
    requires |w| >= 2
  {
    if !GreekOrMath(w) then Ok(Final(w, alias))
    else if alias.None? then Raise(AttributeError)
    else
      var ipc := alias.value;
      if UprightAlias(ipc) && ipc != @"\upepsilon" then Ok(Excluded)
      else
        var renamed := if UprightAlias(ipc) then Some(@"\epsilon") else alias;
        if Blacklisted(ipc) then Ok(Excluded)
        else if SansSerifGreek(w) then Ok(Excluded)
        else Ok(Final(w, renamed))
  }

  /**
   * The tests of the main loop before `add_cmd`, in the order they are
   * made. `sname[0]` of an empty name and `sname[1]` or `sname[-2]` of a
   * one-word name raise IndexError; testing a missing alias raises
   * AttributeError.
   */
  function Screen(category: string, name: string, alias: Option<string>): (r: Result<Verdict>)
    ensures category !in KEPT_CATEGORIES ==> r == Ok(Excluded)
    ensures r.Raise? ==> category in KEPT_CATEGORIES &&
                         ((|Split(name)| < 2 && r.error == IndexError) || (alias.None? && r.error == AttributeError))
  {
    if category !in KEPT_CATEGORIES then Ok(Excluded)
    else
      var w := Split(name);
      if |w| == 0 then Raise(IndexError)
      else if w[0] == "LATIN" && |w| < 2 then Raise(IndexError)
      else if w[0] == "LATIN" && !LatinKept(category, w) then Ok(Excluded)
      else if |w| < 2 then Raise(IndexError)
      else if NextToLast(w) !in LETTER_WORDS then
        if alias.None? then Raise(AttributeError)
        else if OddShapeKept(w, alias.value) then GreekStage(w, alias)
        else Ok(Excluded)
      else GreekStage(w, alias)
  }

  /**
   * The same tests as one conjunction, for a name of two words or more
   * and a present alias: which characters the main loop hands to `add_cmd`.
   */
  predicate Eligible(category: string, w: seq<string>, ipc: string)
    requires |w| >= 2
  {
    && category in KEPT_CATEGORIES
    && (w[0] == "LATIN" ==> LatinKept(category, w))
    && (NextToLast(w) !in LETTER_WORDS ==> OddShapeKept(w, ipc))
    && GreekPasses(w, ipc)
    && w[0] != "TURNED"
    && Last(w) != "APOSTROPHE"
  }

  /** The alias `add_cmd` sees: `\upepsilon` of a Greek or mathematical name is read as `\epsilon`. */
  function Renamed(w: seq<string>, ipc: string): string
    requires |w| >= 1
  {
    if GreekOrMath(w) && ipc == @"\upepsilon" then @"\epsilon" else ipc
  }

  /**
   * Screening a character with a name of two words or more and an alias
   * never raises, and it lets through exactly the eligible ones, with the
   * alias renamed.
   */
  lemma ScreenIsEligible(category: string, name: string, ipc: string)
    requires |Split(name)| >= 2
    ensures var w := Split(name);
            Screen(category, name, Some(ipc)) ==
              if Eligible(category, w, ipc) then Ok(Included(Some(Renamed(w, ipc)))) else Ok(Excluded)
  {
    var w := Split(name);
    GreekStageIsEligible(w, ipc);
  }

  /** The GREEK/MATHEMATICAL block and the last two tests, as a conjunction. */
  lemma GreekStageIsEligible(w: seq<string>, ipc: string)
    requires |w| >= 2
    ensures GreekStage(w, Some(ipc)) ==
              if GreekPasses(w, ipc) && Final(w, None).Included? then Ok(Included(Some(Renamed(w, ipc))))
              else Ok(Excluded)
  {
    if GreekOrMath(w) && ipc == @"\upepsilon" {
      UpepsilonIsUpright();
    }
  }

  /** What the GREEK/MATHEMATICAL block demands of the alias and the name. */
  predicate GreekPasses(w: seq<string>, ipc: string)
    requires |w| >= 2
  {
    GreekOrMath(w) ==> (!UprightAlias(ipc) || ipc == @"\upepsilon") && !Blacklisted(ipc) && !SansSerifGreek(w)
  }

  /** `\upepsilon` is the one upright alias the block renames rather than skips. */
  lemma UpepsilonIsUpright()
    ensures UprightAlias(@"\upepsilon")
  {
    var ipc := @"\upepsilon";
    assert !EndsWith(ipc, "upsilon") by {
      assert ipc[|ipc| - 7..][0] == 'e';
    }
    ContainsIff(ipc, "up");
    assert OccursAt(ipc, "up", 1);
  }

  /** With a blank name, a kept category raises IndexError at `sname[0]`. */
  lemma BlankNameRaises(category: string, name: string, alias: Option<string>)
    requires category in KEPT_CATEGORIES && Split(name) == []
    ensures Screen(category, name, alias) == Raise(IndexError)
  {
  }

  /** A name of a single word raises IndexError, at `sname[1]` or at `sname[-2]`. */
  lemma OneWordNameRaises(category: string, name: string, alias: Option<string>)
    requires category in KEPT_CATEGORIES && |Split(name)| == 1
    ensures Screen(category, name, alias) == Raise(IndexError)
  {
  }

  /** What the main loop does with one symbol: None where it `continue`s, the finished record where it appends. */
  function Admit(c: char, ucd: Ucd, reverse: map<char, string>): (r: Result<Option<Descriptor>>)
    ensures r.Ok? && r.value.Some? ==>
              && r.value.value.character == c
              && r.value.value.category in KEPT_CATEGORIES
              && r.value.value.latexCmd.Some?
              && Delimited(r.value.value.latexCmd.value)
  {
    var d := Describe(c, ucd, reverse);
    match Screen(d.category, d.name, d.ipythonCmd)
    case Raise(e) => Raise(e)
    case Ok(Excluded) => Ok(None)
    case Ok(Included(alias)) =>
      match Command(d.category, d.name, ucd(c).digit, alias)
      case Raise(e) => Raise(e)
      case Ok(None) => Ok(None)
      case Ok(Some(cmd)) => Ok(Some(d.(ipythonCmd := alias, latexCmd := Some(Delimit(cmd)))))
  }

  /** A command between the inline-math delimiters `\(` and `\)`. */
  predicate Delimited(s: string) {
    StartsWith(s, @"\(") && EndsWith(s, @"\)")
  }

  /** The main loop over the symbols in table order; the first exception ends it. */
  function MainPass(symbols: seq<char>, ucd: Ucd, reverse: map<char, string>): Result<seq<Descriptor>>
    decreases |symbols|
  {
    if symbols == [] then Ok([])
    else
      match MainPass(symbols[..|symbols| - 1], ucd, reverse)
      case Raise(e) => Raise(e)
      case Ok(ds) =>
        match Admit(symbols[|symbols| - 1], ucd, reverse)
        case Raise(e) => Raise(e)
        case Ok(None) => Ok(ds)
        case Ok(Some(d)) => Ok(ds + [d])
  }

  /** One patched character: its IPython alias, delimited, is its command; without one, the concatenation raises TypeError. */
  function Patch(c: char, ucd: Ucd, reverse: map<char, string>): Result<Descriptor> {
    var d := Describe(c, ucd, reverse);
    match d.ipythonCmd
    case None => Raise(TypeError)
    case Some(ipc) => Ok(d.(latexCmd := Some(Delimit(ipc))))
  }

  /** The patch loop over `cs`, in order. */
  function PatchPass(cs: seq<char>, ucd: Ucd, reverse: map<char, string>): Result<seq<Descriptor>>
    decreases |cs|
  {
    if cs == [] then Ok([])
    else
      match PatchPass(cs[..|cs| - 1], ucd, reverse)
      case Raise(e) => Raise(e)
      case Ok(ds) =>
        match Patch(cs[|cs| - 1], ucd, reverse)
        case Raise(e) => Raise(e)
        case Ok(d) => Ok(ds + [d])
  }

  /** The list `chars` both loops build. */
  function Table(symbols: seq<char>, ucd: Ucd, reverse: map<char, string>): Result<seq<Descriptor>> {
    match MainPass(symbols, ucd, reverse)
    case Raise(e) => Raise(e)
    case Ok(main) =>
      match PatchPass(PATCH_CHARS, ucd, reverse)
      case Raise(e) => Raise(e)
      case Ok(patched) => Ok(main + patched)
  }

  /** A main pass that raised on a prefix of the symbols raises the same exception on all of them. */
  lemma {:induction false} MainPassRaisePersists(symbols: seq<char>, n: nat, ucd: Ucd, reverse: map<char, string>)
    requires n <= |symbols| && MainPass(symbols[..n], ucd, reverse).Raise?
    ensures MainPass(symbols, ucd, reverse) == MainPass(symbols[..n], ucd, reverse)
    decreases |symbols| - n
  {
    if n < |symbols| {
      assert symbols[..n + 1][..n] == symbols[..n];
      MainPassRaisePersists(symbols, n + 1, ucd, reverse);
    } else {
      assert symbols[..n] == symbols;
    }
  }

  /** The same for the patch pass. */
  lemma {:induction false} PatchPassRaisePersists(cs: seq<char>, n: nat, ucd: Ucd, reverse: map<char, string>)
    requires n <= |cs| && PatchPass(cs[..n], ucd, reverse).Raise?
    ensures PatchPass(cs, ucd, reverse) == PatchPass(cs[..n], ucd, reverse)
    decreases |cs| - n
  {
    if n < |cs| {
      assert cs[..n + 1][..n] == cs[..n];
      PatchPassRaisePersists(cs, n + 1, ucd, reverse);
    } else {
      assert cs[..n] == cs;
    }
  }

  /** One more turn of the main loop. */
  lemma MainPassStep(symbols: seq<char>, i: nat, ucd: Ucd, reverse: map<char, string>, ds: seq<Descriptor>)
    requires i < |symbols| && MainPass(symbols[..i], ucd, reverse) == Ok(ds)
    ensures var a := Admit(symbols[i], ucd, reverse);
            && (a.Raise? ==> MainPass(symbols[..i + 1], ucd, reverse) == Raise(a.error))
            && (a == Ok(None) ==> MainPass(symbols[..i + 1], ucd, reverse) == Ok(ds))
            && (a.Ok? && a.value.Some? ==> MainPass(symbols[..i + 1], ucd, reverse) == Ok(ds + [a.value.value]))
  {
    assert symbols[..i + 1][..i] == symbols[..i];
  }

  lemma PatchPassStep(cs: seq<char>, j: nat, ucd: Ucd, reverse: map<char, string>, ds: seq<Descriptor>)
    requires j < |cs| && PatchPass(cs[..j], ucd, reverse) == Ok(ds)
    ensures var p := Patch(cs[j], ucd, reverse);
            && (p.Raise? ==> PatchPass(cs[..j + 1], ucd, reverse) == Raise(p.error))
            && (p.Ok? ==> PatchPass(cs[..j + 1], ucd, reverse) == Ok(ds + [p.value]))
  {
    assert cs[..j + 1][..j] == cs[..j];
  }

  lemma ViewsSnoc(cs: seq<Character>, ch: Character)
    ensures Views(cs + [ch]) == Views(cs) + [ch.View()]
  {
    assert (cs + [ch])[..|cs|] == cs;
  }

  /**
   * One turn of the main loop: a new `Character` for `c`, screened and
   * handed to `add_cmd`; the object is returned when it is to be appended.
   */
  method Visit(c: char, ucd: Ucd, reverse: map<char, string>) returns (r: Result<Option<Character>>)
    ensures r.Raise? <==> Admit(c, ucd, reverse).Raise?
    ensures r.Raise? ==> r.error == Admit(c, ucd, reverse).error
    ensures r.Ok? ==> (r.value.Some? <==> Admit(c, ucd, reverse).value.Some?)
    ensures r.Ok? && r.value.Some? ==> fresh(r.value.value) && r.value.value.View() == Admit(c, ucd, reverse).value.value
  {
    var ch := new Character(c, ucd, reverse);
    var verdict := Screen(ch.category, ch.name, ch.ipythonCmd);
    match verdict {
      case Raise(e) =>
        return Raise(e);
      case Ok(Excluded) =>
        return Ok(None);
      case Ok(Included(alias)) =>
        ch.ipythonCmd := alias;
        var added := AddCmd(ch, ucd);
        match added {
          case Raise(e) =>
            return Raise(e);
          case Ok(false) =>
            return Ok(None);
          case Ok(true) =>
            return Ok(Some(ch));
        }
    }
  }

  /** One turn of the patch loop: a new `Character` for `c` whose command is its alias between `\(` and `\)`. */
  method PatchOne(c: char, ucd: Ucd, reverse: map<char, string>) returns (r: Result<Character>)
    ensures r.Raise? <==> Patch(c, ucd, reverse).Raise?
    ensures r.Raise? ==> r.error == Patch(c, ucd, reverse).error
    ensures r.Ok? ==> fresh(r.value) && r.value.View() == Patch(c, ucd, reverse).value
  {
    var ch := new Character(c, ucd, reverse);
    match ch.ipythonCmd {
      case None =>
        return Raise(TypeError);
      case Some(ipc) =>
        ch.latexCmd := Some(Delimit(ipc));
        return Ok(ch);
    }
  }

  /** A turn of the main loop on `symbols[i]`, extending the list of the first `i` turns. */
  method MainTurn(symbols: seq<char>, i: nat, chars: seq<Character>, ucd: Ucd, reverse: map<char, string>)
    returns (r: Result<seq<Character>>)
    requires i < |symbols| && MainPass(symbols[..i], ucd, reverse) == Ok(Views(chars))
    ensures r.Raise? <==> MainPass(symbols[..i + 1], ucd, reverse).Raise?
    ensures r.Raise? ==> r.error == MainPass(symbols[..i + 1], ucd, reverse).error
    ensures r.Ok? ==> MainPass(symbols[..i + 1], ucd, reverse) == Ok(Views(r.value))
  {
    MainPassStep(symbols, i, ucd, reverse, Views(chars));
    var kept := Visit(symbols[i], ucd, reverse);
    if kept.Raise? {
      return Raise(kept.error);
    }
    if kept.value.Some? {
      ViewsSnoc(chars, kept.value.value);
      return Ok(chars + [kept.value.value]);
    }
    return Ok(chars);
  }

  /** The main loop: visit every symbol in order and keep the characters that got a command. */
  method MainLoop(symbols: seq<char>, ucd: Ucd, reverse: map<char, string>) returns (r: Result<seq<Character>>)
    ensures r.Raise? <==> MainPass(symbols, ucd, reverse).Raise?
    ensures r.Raise? ==> r.error == MainPass(symbols, ucd, reverse).error
    ensures r.Ok? ==> Views(r.value) == MainPass(symbols, ucd, reverse).value
  {
    var chars: seq<Character> := [];
    var i := 0;
    while i < |symbols|
      invariant 0 <= i <= |symbols|
      invariant MainPass(symbols[..i], ucd, reverse) == Ok(Views(chars))
    {
      var next := MainTurn(symbols, i, chars, ucd, reverse);
      if next.Raise? {
        MainPassRaisePersists(symbols, i + 1, ucd, reverse);
        return Raise(next.error);
      }
      chars := next.value;
      i := i + 1;
    }
    assert symbols[..i] == symbols;
    r := Ok(chars);
  }

  /** A turn of the patch loop on `cs[j]`, extending the list of the first `j` turns. */
  method PatchTurn(cs: seq<char>, j: nat, chars: seq<Character>, ucd: Ucd, reverse: map<char, string>)
    returns (r: Result<seq<Character>>)
    requires j < |cs| && PatchPass(cs[..j], ucd, reverse) == Ok(Views(chars))
    ensures r.Raise? <==> PatchPass(cs[..j + 1], ucd, reverse).Raise?
    ensures r.Raise? ==> r.error == PatchPass(cs[..j + 1], ucd, reverse).error
    ensures r.Ok? ==> PatchPass(cs[..j + 1], ucd, reverse) == Ok(Views(r.value))
  {
    PatchPassStep(cs, j, ucd, reverse, Views(chars));
    var ch := PatchOne(cs[j], ucd, reverse);
    if ch.Raise? {
      return Raise(ch.error);
    }
    ViewsSnoc(chars, ch.value);
    return Ok(chars + [ch.value]);
  }

  /** The patch loop: a patched character for each of `cs`, in order. */
  method PatchLoop(cs: seq<char>, ucd: Ucd, reverse: map<char, string>) returns (r: Result<seq<Character>>)
    ensures r.Raise? <==> PatchPass(cs, ucd, reverse).Raise?
    ensures r.Raise? ==> r.error == PatchPass(cs, ucd, reverse).error
    ensures r.Ok? ==> Views(r.value) == PatchPass(cs, ucd, reverse).value
  {
    var chars: seq<Character> := [];
    var j := 0;
    while j < |cs|
      invariant 0 <= j <= |cs|
      invariant PatchPass(cs[..j], ucd, reverse) == Ok(Views(chars))
    {
      var next := PatchTurn(cs, j, chars, ucd, reverse);
      if next.Raise? {
        PatchPassRaisePersists(cs, j + 1, ucd, reverse);
        return Raise(next.error);
      }
      chars := next.value;
      j := j + 1;
    }
    assert cs[..j] == cs;
    r := Ok(chars);
  }

  lemma ViewsAppend(a: seq<Character>, b: seq<Character>)
    ensures Views(a + b) == Views(a) + Views(b)
  {
    var l, r := Views(a + b), Views(a) + Views(b);
    forall i | 0 <= i < |l|
      ensures l[i] == r[i]
    {
      if i < |a| {
        assert (a + b)[i] == a[i];
      } else {
        assert (a + b)[i] == b[i - |a|];
      }
    }
  }

  /** Both loops of the script; an exception ends the script, as it does there. */
  method CollectCharacters(symbols: seq<char>, ucd: Ucd, reverse: map<char, string>) returns (r: Result<seq<Character>>)
    ensures r.Raise? <==> Table(symbols, ucd, reverse).Raise?
    ensures r.Raise? ==> r.error == Table(symbols, ucd, reverse).error
    ensures r.Ok? ==> Views(r.value) == Table(symbols, ucd, reverse).value
  {
    var main := MainLoop(symbols, ucd, reverse);
    if main.Raise? {
      return Raise(main.error);
    }
    var patched := PatchLoop(PATCH_CHARS, ucd, reverse);
    if patched.Raise? {
      return Raise(patched.error);
    }
    assert Views(main.value) == MainPass(symbols, ucd, reverse).value;
    ViewsAppend(main.value, patched.value);
    TableOfPasses(symbols, ucd, reverse, Views(main.value), Views(patched.value));
    r := Ok(main.value + patched.value);
  }

  lemma TableOfPasses(symbols: seq<char>, ucd: Ucd, reverse: map<char, string>, main: seq<Descriptor>, patched: seq<Descriptor>)
    requires MainPass(symbols, ucd, reverse) == Ok(main) && PatchPass(PATCH_CHARS, ucd, reverse) == Ok(patched)
    ensures Table(symbols, ucd, reverse) == Ok(main + patched)
  {
  }

  /** The characters of a list of records, in order. */
  function Chars(ds: seq<Descriptor>): (cs: seq<char>)
    ensures |cs| == |ds|
    ensures forall i :: 0 <= i < |ds| ==> cs[i] == ds[i].character
  {
    if ds == [] then [] else Chars(ds[..|ds| - 1]) + [ds[|ds| - 1].character]
  }

  /** `xs` is `ys` with some elements left out, the rest in their order. */
  predicate Subsequence<T(==)>(xs: seq<T>, ys: seq<T>)
    decreases |ys|
  {
    if xs == [] then true
    else if ys == [] then false
    else if xs[|xs| - 1] == ys[|ys| - 1] then Subsequence(xs[..|xs| - 1], ys[..|ys| - 1])
    else Subsequence(xs, ys[..|ys| - 1])
  }

  predicate Distinct<T(==)>(xs: seq<T>) {
    forall i, j :: 0 <= i < j < |xs| ==> xs[i] != xs[j]
  }

  /** Every element of a subsequence is an element of the sequence. */
  lemma {:induction false} SubsequenceMembers<T>(xs: seq<T>, ys: seq<T>)
    requires Subsequence(xs, ys)
    ensures forall x :: x in xs ==> x in ys
    decreases |ys|
  {
    if xs != [] && ys != [] {
      var ys' := ys[..|ys| - 1];
      if xs[|xs| - 1] == ys[|ys| - 1] {
        var xs' := xs[..|xs| - 1];
        SubsequenceMembers(xs', ys');
        assert xs == xs' + [xs[|xs| - 1]];
        assert ys == ys' + [ys[|ys| - 1]];
      } else {
        SubsequenceMembers(xs, ys');
        assert ys == ys' + [ys[|ys| - 1]];
      }
    }
  }

  /** A subsequence of a sequence without repetitions has none either. */
  lemma {:induction false} SubsequenceDistinct<T>(xs: seq<T>, ys: seq<T>)
    requires Subsequence(xs, ys) && Distinct(ys)
    ensures Distinct(xs)
    decreases |ys|
  {
    if xs != [] && ys != [] {
      var ys' := ys[..|ys| - 1];
      assert Distinct(ys');
      if xs[|xs| - 1] == ys[|ys| - 1] {
        var xs' := xs[..|xs| - 1];
        SubsequenceDistinct(xs', ys');
        SubsequenceMembers(xs', ys');
        forall i, j | 0 <= i < j < |xs|
          ensures xs[i] != xs[j]
        {
          if j == |xs| - 1 {
            assert xs[i] in xs';
            assert xs[i] in ys';
          } else {
            assert xs[i] == xs'[i] && xs[j] == xs'[j];
          }
        }
      } else {
        SubsequenceDistinct(xs, ys');
      }
    }
  }

  /**
   * For a character with an alias and a name of two words or more the main
   * loop appends exactly the eligible ones that `add_cmd` gives a command,
   * with the alias renamed and the command between `\(` and `\)`.
   */
  lemma AdmitIsEligible(c: char, ucd: Ucd, reverse: map<char, string>)
    requires c in reverse && |Split(ucd(c).name)| >= 2
    ensures var rec := ucd(c);
            var w := Split(rec.name);
            var alias := Renamed(w, reverse[c]);
            Admit(c, ucd, reverse) ==
              if !Eligible(rec.category, w, reverse[c]) then Ok(None)
              else match Command(rec.category, rec.name, rec.digit, Some(alias))
                   case Raise(e) => Raise(e)
                   case Ok(None) => Ok(None)
                   case Ok(Some(cmd)) => Ok(Some(Descriptor(c, rec.category, rec.name, Some(alias), Some(Delimit(cmd)))))
  {
    ScreenIsEligible(ucd(c).category, ucd(c).name, reverse[c]);
  }

  /** A character IPython has no alias for is never appended by the main loop. */
  lemma AdmitNeedsAlias(c: char, ucd: Ucd, reverse: map<char, string>)
    requires c !in reverse
    ensures Admit(c, ucd, reverse).Ok? ==> Admit(c, ucd, reverse).value.None?
  {
  }

  /** The main pass keeps the symbols it admits in their table order. */
  lemma {:induction false} MainPassInOrder(symbols: seq<char>, ucd: Ucd, reverse: map<char, string>)
    requires MainPass(symbols, ucd, reverse).Ok?
    ensures Subsequence(Chars(MainPass(symbols, ucd, reverse).value), symbols)
    decreases |symbols|
  {
    if symbols != [] {
      var init := symbols[..|symbols| - 1];
      MainPassLast(symbols, ucd, reverse);
      MainPassInOrder(init, ucd, reverse);
      var c := symbols[|symbols| - 1];
      KeptInOrder(MainPass(init, ucd, reverse).value, MainPass(symbols, ucd, reverse).value, init, c);
      LastSplit(symbols);
    }
  }

  /** A non-empty sequence is its front followed by its last element. */
  lemma LastSplit<T>(s: seq<T>)
    requires s != []
    ensures s == s[..|s| - 1] + [s[|s| - 1]]
  {
  }

  /** Keeping or appending a record for the next symbol keeps the records in symbol order. */
  lemma KeptInOrder(before: seq<Descriptor>, ds: seq<Descriptor>, init: seq<char>, c: char)
    requires Subsequence(Chars(before), init)
    requires || ds == before
             || (|ds| == |before| + 1 && ds[..|before|] == before && ds[|before|].character == c)
    ensures Subsequence(Chars(ds), init + [c])
  {
    if ds == before {
      SubsequenceSnocRight(Chars(before), init, c);
    } else {
      var d := ds[|before|];
      assert ds == before + [d];
      CharsSnoc(before, d);
      SubsequenceSnocBoth(Chars(before), init, c);
    }
  }

  lemma CharsSnoc(ds: seq<Descriptor>, d: Descriptor)
    ensures Chars(ds + [d]) == Chars(ds) + [d.character]
  {
    assert (ds + [d])[..|ds|] == ds;
  }

  /** Adding the same element to the end of both sequences keeps a subsequence one. */
  lemma SubsequenceSnocBoth<T>(xs: seq<T>, ys: seq<T>, y: T)
    requires Subsequence(xs, ys)
    ensures Subsequence(xs + [y], ys + [y])
  {
    assert (xs + [y])[..|xs|] == xs;
    assert (ys + [y])[..|ys|] == ys;
  }

  /** The last turn of a main pass that did not raise appends at most one record, for the last symbol. */
  lemma MainPassLast(symbols: seq<char>, ucd: Ucd, reverse: map<char, string>)
    requires symbols != [] && MainPass(symbols, ucd, reverse).Ok?
    ensures var init := symbols[..|symbols| - 1];
            && MainPass(init, ucd, reverse).Ok?
            && var before := MainPass(init, ucd, reverse).value;
               var ds := MainPass(symbols, ucd, reverse).value;
               || ds == before
               || (|ds| == |before| + 1 && ds[..|before|] == before && ds[|before|].character == symbols[|symbols| - 1])
  {
  }

  /** Adding an element to the end of the sequence keeps a subsequence one. */
  lemma {:induction false} SubsequenceSnocRight<T>(xs: seq<T>, ys: seq<T>, y: T)
    requires Subsequence(xs, ys)
    ensures Subsequence(xs, ys + [y])
    decreases |ys|, 1
  {
    if xs != [] {
      assert (ys + [y])[..|ys|] == ys;
      if xs[|xs| - 1] == y {
        SubsequenceDropLast(xs, ys);
      }
    }
  }

  /** Leaving out the last element of a subsequence keeps it one. */
  lemma {:induction false} SubsequenceDropLast<T>(xs: seq<T>, ys: seq<T>)
    requires xs != [] && Subsequence(xs, ys)
    ensures Subsequence(xs[..|xs| - 1], ys)
    decreases |ys|, 0
  {
    var xs' := xs[..|xs| - 1];
    if ys != [] {
      var ys' := ys[..|ys| - 1];
      if xs[|xs| - 1] == ys[|ys| - 1] {
        SubsequenceSnocRight(xs', ys', ys[|ys| - 1]);
        assert ys' + [ys[|ys| - 1]] == ys;
      } else {
        SubsequenceDropLast(xs, ys');
        SubsequenceSnocRight(xs', ys', ys[|ys| - 1]);
        assert ys' + [ys[|ys| - 1]] == ys;
      }
    }
  }

  /** Every record the main pass keeps is what admitting its character gives. */
  lemma {:induction false} MainPassAdmitted(symbols: seq<char>, ucd: Ucd, reverse: map<char, string>)
    requires MainPass(symbols, ucd, reverse).Ok?
    ensures var ds := MainPass(symbols, ucd, reverse).value;
            forall i :: 0 <= i < |ds| ==> Admit(ds[i].character, ucd, reverse) == Ok(Some(ds[i]))
    decreases |symbols|
  {
    if symbols != [] {
      MainPassAdmitted(symbols[..|symbols| - 1], ucd, reverse);
    }
  }

  /** A character that is not admitted does not appear in the main pass. */
  lemma MainPassSkips(symbols: seq<char>, c: char, ucd: Ucd, reverse: map<char, string>)
    requires MainPass(symbols, ucd, reverse).Ok? && Admit(c, ucd, reverse) == Ok(None)
    ensures c !in Chars(MainPass(symbols, ucd, reverse).value)
  {
    MainPassAdmitted(symbols, ucd, reverse);
  }

  /** Distinct symbols give distinct characters in the main pass. */
  lemma MainPassDistinct(symbols: seq<char>, ucd: Ucd, reverse: map<char, string>)
    requires MainPass(symbols, ucd, reverse).Ok? && Distinct(symbols)
    ensures Distinct(Chars(MainPass(symbols, ucd, reverse).value))
  {
    MainPassInOrder(symbols, ucd, reverse);
    SubsequenceDistinct(Chars(MainPass(symbols, ucd, reverse).value), symbols);
  }

  /** The patch pass yields one record per character, in order, whose command is its alias between `\(` and `\)`. */
  lemma {:induction false} PatchPassRecords(cs: seq<char>, ucd: Ucd, reverse: map<char, string>)
    requires PatchPass(cs, ucd, reverse).Ok?
    ensures var ds := PatchPass(cs, ucd, reverse).value;
            && Chars(ds) == cs
            && forall i :: 0 <= i < |ds| ==>
                 && cs[i] in reverse
                 && ds[i].ipythonCmd == Some(reverse[cs[i]])
                 && ds[i].latexCmd == Some(Delimit(reverse[cs[i]]))
    decreases |cs|
  {
    if cs != [] {
      var init := cs[..|cs| - 1];
      var c := cs[|cs| - 1];
      PatchPassLast(cs, ucd, reverse);
      PatchPassRecords(init, ucd, reverse);
      var before := PatchPass(init, ucd, reverse).value;
      var d := Patch(c, ucd, reverse).value;
      var ds := before + [d];
      assert ds[..|before|] == before;
      assert Chars(ds) == Chars(before) + [c];
      assert cs == init + [c];
      forall i | 0 <= i < |ds|
        ensures cs[i] in reverse && ds[i].ipythonCmd == Some(reverse[cs[i]]) && ds[i].latexCmd == Some(Delimit(reverse[cs[i]]))
      {
        if i < |before| {
          assert ds[i] == before[i] && cs[i] == init[i];
        }
      }
    }
  }

  /** The last turn of a patch pass that did not raise. */
  lemma PatchPassLast(cs: seq<char>, ucd: Ucd, reverse: map<char, string>)
    requires cs != [] && PatchPass(cs, ucd, reverse).Ok?
    ensures var init := cs[..|cs| - 1];
            var c := cs[|cs| - 1];
            && PatchPass(init, ucd, reverse).Ok?
            && c in reverse
            && Patch(c, ucd, reverse).Ok?
            && Patch(c, ucd, reverse).value.character == c
            && Patch(c, ucd, reverse).value.ipythonCmd == Some(reverse[c])
            && Patch(c, ucd, reverse).value.latexCmd == Some(Delimit(reverse[c]))
            && PatchPass(cs, ucd, reverse).value == PatchPass(init, ucd, reverse).value + [Patch(c, ucd, reverse).value]
  {
  }

  /** Every record of the table carries a command between the inline-math delimiters. */
  lemma TableDelimited(symbols: seq<char>, ucd: Ucd, reverse: map<char, string>)
    requires Table(symbols, ucd, reverse).Ok?
    ensures var ds := Table(symbols, ucd, reverse).value;
            forall i :: 0 <= i < |ds| ==> ds[i].latexCmd.Some? && Delimited(ds[i].latexCmd.value)
  {
    var main := MainPass(symbols, ucd, reverse).value;
    var patched := PatchPass(PATCH_CHARS, ucd, reverse).value;
    MainPassAdmitted(symbols, ucd, reverse);
    PatchPassRecords(PATCH_CHARS, ucd, reverse);
    var ds := Table(symbols, ucd, reverse).value;
    forall i | 0 <= i < |ds|
      ensures ds[i].latexCmd.Some? && Delimited(ds[i].latexCmd.value)
    {
      if i < |main| {
        assert ds[i] == main[i];
      } else {
        assert ds[i] == patched[i - |main|];
      }
    }
  }

  /** The table is the main-pass survivors in symbol order, then the five patched characters. */
  lemma TableInOrder(symbols: seq<char>, ucd: Ucd, reverse: map<char, string>)
    requires Table(symbols, ucd, reverse).Ok?
    ensures var cs := Chars(Table(symbols, ucd, reverse).value);
            var n := |cs| - |PATCH_CHARS|;
            && n >= 0
            && Subsequence(cs[..n], symbols)
            && cs[n..] == PATCH_CHARS
  {
    var main := MainPass(symbols, ucd, reverse).value;
    var patched := PatchPass(PATCH_CHARS, ucd, reverse).value;
    MainPassInOrder(symbols, ucd, reverse);
    PatchPassRecords(PATCH_CHARS, ucd, reverse);
    CharsAppend(main, patched);
    AppendParts(Chars(main), Chars(patched));
  }

  /** The two parts of a concatenation are its slices at the seam. */
  lemma AppendParts<T>(a: seq<T>, b: seq<T>)
    ensures (a + b)[..|a|] == a && (a + b)[|a|..] == b
  {
  }

  const HBAR_NAME := "LATIN SMALL LETTER H WITH STROKE"

  /** What the Unicode database records for the patched characters: ħ is a small Latin letter, ℵ, ℶ, ℷ and ℸ are other letters (Lo). */
  predicate PatchRecords(ucd: Ucd) {
    && ucd('ħ').category == "Ll" && ucd('ħ').name == HBAR_NAME
    && ucd('ℵ').category == "Lo" && ucd('ℶ').category == "Lo"
    && ucd('ℷ').category == "Lo" && ucd('ℸ').category == "Lo"
  }

  lemma HbarNameSpelling()
    ensures HBAR_NAME == "LATIN" + " " + ("SMALL" + " " + "LETTER H WITH STROKE")
  {
  }

  /** Two words and a space-led rest: `split()` yields the two words first. */
  lemma SplitTwoWords(a: string, b: string, rest: string)
    requires IsWord(a) && IsWord(b)
    ensures var w := Split(a + " " + (b + " " + rest));
            |w| >= 2 && w[0] == a && w[1] == b
  {
    assert a + " " + (b + " " + rest) == a + (" " + (b + (" " + rest)));
    SplitCons(a, " " + (b + (" " + rest)));
    SplitSkipsSpace(b + (" " + rest));
    SplitCons(b, " " + rest);
  }

  lemma HbarNameWords()
    ensures |Split(HBAR_NAME)| >= 2 && Split(HBAR_NAME)[0] == "LATIN" && Split(HBAR_NAME)[1] == "SMALL"
  {
    HbarNameSpelling();
    assert IsWord("LATIN") && IsWord("SMALL");
    SplitTwoWords("LATIN", "SMALL", "LETTER H WITH STROKE");
  }

  /** A small Latin letter that is neither a subscript nor a modifier letter is skipped. */
  lemma LatinLetterNotAdmitted(c: char, ucd: Ucd, reverse: map<char, string>)
    requires ucd(c).category == "Ll"
    requires var w := Split(ucd(c).name); |w| >= 2 && w[0] == "LATIN" && w[1] != "SUBSCRIPT"
    ensures Admit(c, ucd, reverse) == Ok(None)
  {
  }

  /** ħ is such a letter. */
  lemma HbarNotAdmitted(ucd: Ucd, reverse: map<char, string>)
    requires ucd('ħ').category == "Ll" && ucd('ħ').name == HBAR_NAME
    ensures Admit('ħ', ucd, reverse) == Ok(None)
  {
    HbarNameWords();
    LatinLetterNotAdmitted('ħ', ucd, reverse);
  }

  /** A character of category Lo is skipped at once. */
  lemma OtherLetterNotAdmitted(c: char, ucd: Ucd, reverse: map<char, string>)
    requires ucd(c).category == "Lo"
    ensures Admit(c, ucd, reverse) == Ok(None)
  {
  }

  /**
   * A whole admission: α, a small Greek letter with alias `\alpha`, passes
   * every test and is kept with the command `\(\upalpha\)`.
   */
  lemma AlphaAdmitted(ucd: Ucd, reverse: map<char, string>)
    requires ucd('α').category == "Ll" && StartsWith(ucd('α').name, "GREEK")
    requires Split(ucd('α').name) == ["GREEK", "SMALL", "LETTER", "ALPHA"]
    requires 'α' in reverse && reverse['α'] == @"\alpha"
    ensures Admit('α', ucd, reverse) ==
              Ok(Some(Descriptor('α', "Ll", ucd('α').name, Some(@"\alpha"), Some(@"\(\upalpha\)"))))
  {
    AlphaEligible(Split(ucd('α').name));
    AlphaCommand(ucd('α').name, ucd('α').digit);
    UpalphaDelimited();
    AdmitIsEligible('α', ucd, reverse);
  }

  /** `add_cmd` turns `\alpha` of a GREEK name into `\upalpha`. */
  lemma AlphaCommand(name: string, digit: Option<DigitValue>)
    requires StartsWith(name, "GREEK")
    ensures Command("Ll", name, digit, Some(@"\alpha")) == Ok(Some(@"\" + "up" + "alpha"))
  {
    StartsWithIff(name, "GREEK");
    StartsWithIff(name, "MATHEMATICAL");
    assert name[0] == 'G';
    AlphaFallsThrough();
    AlphaUpright();
    FallbackCommand("Ll", name, digit, @"\alpha");
  }

  /** The name GREEK SMALL LETTER ALPHA with the alias `\alpha` passes every test, and the alias stays. */
  lemma AlphaEligible(w: seq<string>)
    requires w == ["GREEK", "SMALL", "LETTER", "ALPHA"]
    ensures Eligible("Ll", w, @"\alpha") && Renamed(w, @"\alpha") == @"\alpha"
  {
    AlphaNotUpright();
    AlphaNotBlacklisted();
  }

  /** `\alpha` has no `u`, so it is not an upright alias. */
  lemma AlphaNotUpright()
    ensures !UprightAlias(@"\alpha")
  {
    var ipc := @"\alpha";
    ContainsIff(ipc, "up");
    assert forall i :: 0 <= i < |ipc| ==> ipc[i] != 'u';
  }

  /** The endings of `\alpha`. */
  const ALPHA_ENDINGS: set<string> := {"", "a", "ha", "pha", "lpha", "alpha", @"\alpha"}

  lemma AlphaEndings()
    ensures forall g :: EndsWith(@"\alpha", g) ==> g in ALPHA_ENDINGS
  {
    var ipc := @"\alpha";
    forall g | EndsWith(ipc, g)
      ensures g in ALPHA_ENDINGS
    {
      var k := |g|;
      assert g == ipc[6 - k..];
      if k == 0 { assert g == ""; }
      else if k == 1 { assert g == "a"; }
      else if k == 2 { assert g == "ha"; }
      else if k == 3 { assert g == "pha"; }
      else if k == 4 { assert g == "lpha"; }
      else if k == 5 { assert g == "alpha"; }
      else { assert g == ipc; }
    }
  }

  /** `\alpha` ends with no blacklisted Greek name: the blacklist spells `Alpha` with a capital. */
  lemma AlphaNotBlacklisted()
    ensures !Blacklisted(@"\alpha")
  {
    AlphaEndings();
    assert forall g :: g in GREEK_BLACKLIST ==> g !in ALPHA_ENDINGS;
  }

  /** No style prefix takes `\alpha`. */
  lemma AlphaFallsThrough()
    ensures Branch(@"\alpha").None?
  {
  }

  lemma AlphaUpright()
    ensures @"\alpha"[1..] == "alpha" && "alpha" !in UPGREEK_BLACKLIST
  {
  }

  lemma UpalphaDelimited()
    ensures Delimit(@"\" + "up" + "alpha") == @"\(\upalpha\)"
  {
  }

  /** The main loop skips all five patched characters. */
  lemma PatchCharsNotAdmitted(ucd: Ucd, reverse: map<char, string>)
    requires PatchRecords(ucd)
    ensures forall c :: c in PATCH_CHARS ==> Admit(c, ucd, reverse) == Ok(None)
  {
    HbarNotAdmitted(ucd, reverse);
    OtherLetterNotAdmitted('ℵ', ucd, reverse);
    OtherLetterNotAdmitted('ℶ', ucd, reverse);
    OtherLetterNotAdmitted('ℷ', ucd, reverse);
    OtherLetterNotAdmitted('ℸ', ucd, reverse);
  }

  lemma CharsAppend(a: seq<Descriptor>, b: seq<Descriptor>)
    ensures Chars(a + b) == Chars(a) + Chars(b)
  {
  }

  /**
   * With distinct symbols and the real records of the patched characters,
   * no character appears twice in the table: the patch loop adds only
   * characters the main loop skipped.
   */
  lemma TableDistinct(symbols: seq<char>, ucd: Ucd, reverse: map<char, string>)
    requires Table(symbols, ucd, reverse).Ok? && Distinct(symbols) && PatchRecords(ucd)
    ensures Distinct(Chars(Table(symbols, ucd, reverse).value))
  {
    var main := MainPass(symbols, ucd, reverse).value;
    var patched := PatchPass(PATCH_CHARS, ucd, reverse).value;
    MainPassDistinct(symbols, ucd, reverse);
    PatchPassRecords(PATCH_CHARS, ucd, reverse);
    PatchCharsNotAdmitted(ucd, reverse);
    CharsAppend(main, patched);
    PatchCharsDistinct();
    forall c | c in PATCH_CHARS
      ensures c !in Chars(main)
    {
      MainPassSkips(symbols, c, ucd, reverse);
    }
    DistinctAppend(Chars(main), Chars(patched));
  }

  lemma PatchCharsDistinct()
    ensures Distinct(PATCH_CHARS)
  {
  }

  /** Two sequences without repetitions and without a common element concatenate to one without repetitions. */
  lemma DistinctAppend<T>(a: seq<T>, b: seq<T>)
    requires Distinct(a) && Distinct(b) && forall x :: x in b ==> x !in a
    ensures Distinct(a + b)
  {
    var xs := a + b;
    forall i, j | 0 <= i < j < |xs|
      ensures xs[i] != xs[j]
    {
      if j < |a| {
        assert xs[i] == a[i] && xs[j] == a[j];
      } else if i < |a| {
        assert xs[i] == a[i] && xs[j] == b[j - |a|] && b[j - |a|] in b;
      } else {
        assert xs[i] == b[i - |a|] && xs[j] == b[j - |a|];
      }
    }
  }
}
