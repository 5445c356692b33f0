/**
 * The `listings` declaration the script writes:
 * `\lstset{extendedchars=true,literate=` followed by one `{c}{{cmd}}1`
 * entry per character, separated by single spaces, and a closing brace.
 * `listings` reads each entry as "replace the one-column input `c` by the
 * group `{cmd}`".
 */
module Declaration {
  import opened Wrappers
  import opened PyStr
  import opened PyFormat
  import opened Characters
  import opened Filter

  const HEADER: string := @"\lstset{extendedchars=true,literate="

  /** The f-string of one entry with its doubled braces undone around its two fields. */
  const ENTRY_TEMPLATE: string := TwoFields("{", "}{{", "}}1")

  /** How an f-string shows an optional string: Python prints a missing one as `None`. */
  function Show(s: Option<string>): string {
    match s
    case Some(v) => v
    case None => "None"
  }

  /** One entry: the character in braces, then its command in a doubled group, then the column count 1. */
  function Entry(d: Descriptor): string {
    "{" + [d.character] + "}{{" + Show(d.latexCmd) + "}}1"
  }

  /** The entry is what formatting the f-string's template with the character and its command yields. */
  lemma EntryIsFormatted(d: Descriptor)
    ensures Format(ENTRY_TEMPLATE, [[d.character], Show(d.latexCmd)]) == Ok(Entry(d))
  {
    FormatTwoFields("{", "}{{", "}}1", [d.character], Show(d.latexCmd));
  }

  function Entries(ds: seq<Descriptor>): (es: seq<string>)
    ensures |es| == |ds|
    ensures forall i :: 0 <= i < |ds| ==> es[i] == Entry(ds[i])
  {
    if ds == [] then [] else [Entry(ds[0])] + Entries(ds[1..])
  }

  /** The whole declaration. */
  function Literate(ds: seq<Descriptor>): (s: string)
    ensures |s| > |HEADER| && s[..|HEADER|] == HEADER && s[|s| - 1] == '}'
    ensures s[|HEADER|..|s| - 1] == Join(Entries(ds), " ")
    ensures ds == [] ==> s == @"\lstset{extendedchars=true,literate=}"
  {
    var s := HEADER + Join(Entries(ds), " ") + "}";
    assert s[..|HEADER|] == HEADER;
    s
  }

  /** What `listings` reads back from one entry: which character to replace and by which command. */
  datatype Replacement = Replacement(character: char, command: string)

  function Replacements(ds: seq<Descriptor>): (rs: seq<Replacement>)
    ensures |rs| == |ds|
    ensures forall i :: 0 <= i < |ds| ==> rs[i] == Replacement(ds[i].character, Show(ds[i].latexCmd))
  {
    if ds == [] then [] else [Replacement(ds[0].character, Show(ds[0].latexCmd))] + Replacements(ds[1..])
  }

  /** Reads one entry `{c}{{cmd}}1`; anything else is not an entry. */
  function DecodeEntry(e: string): Option<Replacement> {
    if |e| >= 8 && e[0] == '{' && e[2..5] == "}{{" && e[|e| - 3..] == "}}1"
    then Some(Replacement(e[1], e[5..|e| - 3]))
    else None
  }

  function DecodeEntries(es: seq<string>): Option<seq<Replacement>> {
    if es == [] then Some([])
    else
      match (DecodeEntry(es[0]), DecodeEntries(es[1..]))
      case (Some(r), Some(rs)) => Some([r] + rs)
      case _ => None
  }

  /** Reads a whole declaration back into its replacements, splitting the entries at white space. */
  function Decode(s: string): Option<seq<Replacement>> {
    if |s| <= |HEADER| || s[..|HEADER|] != HEADER || s[|s| - 1] != '}' then None
    else DecodeEntries(Split(s[|HEADER|..|s| - 1]))
  }

  lemma DecodeEntryOfEntry(d: Descriptor)
    ensures DecodeEntry(Entry(d)) == Some(Replacement(d.character, Show(d.latexCmd)))
  {
    var e := Entry(d);
    var cmd := Show(d.latexCmd);
    assert e == "{" + [d.character] + "}{{" + cmd + "}}1";
    assert e[2..5] == "}{{";
    assert e[|e| - 3..] == "}}1";
    assert e[5..|e| - 3] == cmd;
  }

  /** The character and the command contain no white space. */
  predicate Unspaced(d: Descriptor) {
    !IsSpace(d.character) && forall i :: 0 <= i < |Show(d.latexCmd)| ==> !IsSpace(Show(d.latexCmd)[i])
  }

  lemma EntryIsWord(d: Descriptor)
    requires Unspaced(d)
    ensures IsWord(Entry(d))
  {
    var e := Entry(d);
    var cmd := Show(d.latexCmd);
    forall i | 0 <= i < |e|
      ensures !IsSpace(e[i])
    {
      if 5 <= i < |e| - 3 {
        assert e[i] == cmd[i - 5];
      }
    }
  }

  lemma {:induction false} DecodeEntriesOfEntries(ds: seq<Descriptor>)
    ensures DecodeEntries(Entries(ds)) == Some(Replacements(ds))
    decreases |ds|
  {
    if ds != [] {
      DecodeEntryOfEntry(ds[0]);
      DecodeEntriesOfEntries(ds[1..]);
      assert Entries(ds)[1..] == Entries(ds[1..]);
    }
  }

  /**
   * When no character or command holds white space, the declaration reads
   * back as the list of characters with their commands, in order.
   */
  lemma DecodeLiterate(ds: seq<Descriptor>)
    requires forall i :: 0 <= i < |ds| ==> Unspaced(ds[i])
    ensures Decode(Literate(ds)) == Some(Replacements(ds))
  {
    var es := Entries(ds);
    forall i | 0 <= i < |es|
      ensures IsWord(es[i])
    {
      EntryIsWord(ds[i]);
    }
    SplitJoin(es);
    DecodeEntriesOfEntries(ds);
  }

  /**
   * The declaration written for the script's table reads back as one
   * replacement per record, in table order, each by the record's command,
   * which is a math-mode command between `\(` and `\)`.
   */
  lemma DeclarationOfTable(symbols: seq<char>, ucd: Ucd, reverse: map<char, string>)
    requires Table(symbols, ucd, reverse).Ok?
    requires var ds := Table(symbols, ucd, reverse).value; forall i :: 0 <= i < |ds| ==> Unspaced(ds[i])
    ensures var ds := Table(symbols, ucd, reverse).value;
            var rs := Decode(Literate(ds));
            && rs.Some? && |rs.value| == |ds|
            && forall i :: 0 <= i < |ds| ==>
                 && rs.value[i].character == ds[i].character
                 && ds[i].latexCmd == Some(rs.value[i].command)
                 && Delimited(rs.value[i].command)
  {
    var ds := Table(symbols, ucd, reverse).value;
    DecodeLiterate(ds);
    TableDelimited(symbols, ucd, reverse);
  }
}
