/**
 * The `Character` record of the script and the two tables it is built
 * from: the Unicode database (category, name and digit value of a code
 * point) and IPython's reverse table from a character to its alias.
 */
module Characters {
  import opened Wrappers

  /** A decimal digit value, as `unicodedata.digit` returns it. */
  type DigitValue = d: int | 0 <= d <= 9

  /** What the Unicode database knows of one character. `digit` is None where `unicodedata.digit` raises. */
  datatype UnicodeRecord = UnicodeRecord(category: string, name: string, digit: Option<DigitValue>)

  /** The Unicode database, given as a total lookup. */
  type Ucd = char -> UnicodeRecord

  /** A snapshot of the fields of a `Character`. */
  datatype Descriptor = Descriptor(
    character: char,
    category: string,
    name: string,
    ipythonCmd: Option<string>,
    latexCmd: Option<string>)

  /** The descriptor `Character(c)` starts out as: category and name from the database, the alias if IPython has one. */
  function Describe(c: char, ucd: Ucd, reverse: map<char, string>): Descriptor {
    Descriptor(c, ucd(c).category, ucd(c).name, Get(reverse, c), None)
  }

  class Character {
    const character: char
    const category: string
    const name: string
    var ipythonCmd: Option<string>
    var latexCmd: Option<string>

    /** `Character(c)`, including what `__post_init__` fills in. */
    constructor (c: char, ucd: Ucd, reverse: map<char, string>)
      ensures View() == Describe(c, ucd, reverse)
    {
      character := c;
      category := ucd(c).category;
      name := ucd(c).name;
      ipythonCmd := Get(reverse, c);
      latexCmd := None;
    }

    /** The current field values. */
    function View(): Descriptor
      reads this
    {
      Descriptor(character, category, name, ipythonCmd, latexCmd)
    }
  }

  /** The field values of every object of a list, in order. */
  function Views(cs: seq<Character>): (ds: seq<Descriptor>)
    reads set i | 0 <= i < |cs| :: cs[i]
    ensures |ds| == |cs|
    ensures forall i :: 0 <= i < |cs| ==> ds[i] == cs[i].View()
  {
    if cs == [] then [] else Views(cs[..|cs| - 1]) + [cs[|cs| - 1].View()]
  }
}
