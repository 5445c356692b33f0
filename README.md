# literate.py in Dafny

`literate.py` builds a `listings` declaration,
`\lstset{extendedchars=true,literate=...}`, that makes code listings show
Unicode letters as LaTeX math. It walks IPython's table of LaTeX aliases
and builds a `Character` record for each character: its Unicode category
and name, and its IPython alias. It then screens the character by
category, by the words of its name and by its alias. Survivors go to
`add_cmd`, which picks a style by the alias prefix (`\bf`, `\bfrak`,
`\bb`, `\scr`, ...). `add_cmd` strips that prefix with `latex_char`, fills
the style's template and stores the command between `\(` and `\)`. Five
characters the screening drops (ħ, ℵ, ℶ, ℷ, ℸ) are then appended with
`\(` + alias + `\)` as the command. Last, the script writes one `{c}{{cmd}}1`
entry per character into the declaration.

The model, module by module:

- `Wrappers`: Option and Result. A Python exception is a `Raise` of
  IndexError, TypeError, AttributeError or ValueError.
- `PyStr`: the string operations the script uses. These are `startswith`,
  `endswith`, `in`, slicing, `split()` and `' '.join`.
- `PyFormat`: the `{}` / `{{` / `}}` subset of `str.format` and f-strings.
- `Characters`: the Unicode database as a total function from a character
  to its record, and the `Character` class.
- `Commands`:
  - the nine style templates;
  - `latex_char`, as `LatexChar`;
  - `add_cmd`, as the `AddCmd` method over the pure `Command`. Its prefix
    chain is data (`Branch`, a rule from `IsStyleRule`).
- `Filter`:
  - the screening decision tree (`Screen`), with a declarative
    equivalent (`Eligible`);
  - the two loops of the script, as methods on `Character` objects;
  - the functions `MainPass`, `PatchPass` and `Table`, which specify those
    loops.
- `Declaration`: the `\lstset` string, and a decoder that reads it back.

## Model

| member | source | states |
|---|---|---|
| Characters.Character.constructor | literate.py:10-26 | `Character(c)` takes category and name from the Unicode database and the alias from the reverse table, with no command yet |
| PyStr.StartsWithIff | literate.py:70-98 | `startswith(p)` holds exactly when `p` is no longer than the string and equals its first `len(p)` characters |
| PyStr.ContainsIff | literate.py:158 | `sub in s` holds exactly when `sub` occurs at some position of `s` |
| PyStr.From | literate.py:53 | `ipc[len(prefix):]` is what remains after the first `len(prefix)` characters, and is empty when the prefix is longer than the alias |
| PyStr.UpTo | literate.py:68 | `ipc[:2]` is a prefix of the alias with at most two characters |
| PyStr.Split | literate.py:128 | every word `split()` yields is non-empty and holds no white space |
| PyStr.SplitJoin | literate.py:201-202 | splitting a space-joined list of words gives the list back |
| PyFormat.FormatOneField | literate.py:33-41 | a template with one `{}` field formats its argument between the literal parts |
| PyFormat.FormatTwoFields | literate.py:201 | a template with two fields puts both arguments between the three literal parts, in order |
| Commands.BoldTemplate | literate.py:33 | `BF_CMD` formats `x` as `\bm{{x}}`, in double braces |
| Commands.ItalicTemplate | literate.py:34 | `IT_CMD` formats `x` as `\mathit{x}` |
| Commands.ScriptTemplate | literate.py:35 | `SCR_CMD` formats `x` as `\mathcal{x}` |
| Commands.FrakturTemplate | literate.py:36 | `FRAK_CMD` formats `x` as `\mathfrak{x}` |
| Commands.BlackboardTemplate | literate.py:37 | `BB_CMD` formats `x` as `\mathbb{x}` |
| Commands.SansTemplate | literate.py:38 | `SANS_CMD` formats `x` as `\mathsf{x}` |
| Commands.ItalicSansTemplate | literate.py:39 | `ISANS_CMD` formats `x` as `\mathsfit{x}` |
| Commands.TypewriterTemplate | literate.py:40 | `TT_CMD` formats `x` as `\mathtt{x}` |
| Commands.RomanTemplate | literate.py:41 | `N_CMD` formats `x` as `\mathrm{x}` |
| Commands.Str | literate.py:50 | formatting a digit value yields its one decimal digit |
| Commands.LatexChar | literate.py:48-61 | the error cases: IndexError for a short category, ValueError for a digit without a value. A digit category gives its digit value whatever the prefix. A suffix of at most one character comes back unchanged. A longer suffix gives a result that starts with `\` and ends with the suffix |
| Commands.LatexCharModifier | literate.py:54-60 | for a longer suffix: after `\` or `\bf`, a name outside `upgreek_blacklist` gives exactly `\up` + suffix; after `\it` or `\bi`, a blacklisted name without `var` gives `\var` + suffix; anything else gives `\` + suffix |
| Commands.Branch | literate.py:70-98 | a chosen rule is one of the fourteen rules of the chain and applies to the alias |
| Commands.PrefixesApart | literate.py:70-98 | of the style prefixes, a longer one starts with a shorter one only in the three overlaps below |
| Commands.Overlaps | literate.py:70-98 | the only prefix overlaps are `\bisans`/`\bi`, `\bfrak`/`\bf` and `\bbi`/`\bb` |
| Commands.BoldItalicSansFirst | literate.py:72-73 | a `\bisans` alias takes the bold italic sans-serif branch, not `\bi` |
| Commands.BoldFrakturFirst | literate.py:80-81 | a `\bfrak` alias takes the bold Fraktur branch, not `\bf` |
| Commands.DoubleStruckItalicFirst | literate.py:82-86 | a longer `\bbi` alias takes the unsupported branch; `\bbi` itself takes the double-struck one |
| Commands.BranchIsLongestMatch | literate.py:70-98 | the branch taken has the longest prefix among all rules that apply: overlapping longer prefixes win |
| Commands.StyleTemplateFormats | literate.py:70-98 | every style template formats any argument without error |
| Commands.LetterCommandSucceeds | literate.py:64-106 | a non-digit letter with an alias of two or more characters always gets a result from `add_cmd`, never an exception |
| Commands.StyledSucceeds | literate.py:70-96 | every style branch builds its command for a non-digit letter without raising |
| Commands.StyledDeclines | literate.py:82-84 | a chosen rule gives no command exactly when it is the unsupported `\bbi` one |
| Commands.BranchUnsupported | literate.py:82-84 | the unsupported rule is chosen exactly for aliases that start with `\bbi` and are not `\bbi` |
| Commands.BranchNone | literate.py:70-99 | the chain falls through exactly when no style prefix applies |
| Commands.CommandDeclinesByBranch | literate.py:64-106 | `add_cmd` returns False exactly for a non-script alias whose branch is unsupported, or that matches no branch while the name starts with MATHEMATICAL |
| Commands.CommandDeclines | literate.py:64-106 | the same two cases, stated on the alias itself: it starts with `\bbi` but is longer; or it is no script alias, no style prefix applies, and the name starts with MATHEMATICAL |
| Commands.FallbackCommand | literate.py:99-104 | with no style prefix and no MATHEMATICAL name: a non-Greek name keeps IPython's alias as its command; a Greek one becomes `\up` + name, or `\` + name for a name in `upgreek_blacklist`; a two-character Greek alias gives its second character alone |
| Commands.DigitFallbackCommand | literate.py:99-107 | for a digit with no style prefix and no MATHEMATICAL name: a non-Greek name keeps its alias; a GREEK one raises TypeError, because `latex_char` returns the digit value and line 107 adds it to a string, or ValueError when the digit has no value |
| Commands.ScriptCommand | literate.py:67-68 | for a letter with a `^` or `_` alias: `{}`, the script mark, then the rest of the alias, which gets a `\` in front when it is longer than one character |
| Commands.ScriptDigitRaises | literate.py:67-68 | for a digit with a `^` or `_` alias, `add_cmd` raises TypeError, because the digit value is added to a string, or ValueError when the digit has no value |
| Commands.BoldCommandShape | literate.py:72-96 | every bold branch yields a command that starts with `\bm{{` and ends with `}}` |
| Commands.Delimit | literate.py:107 | the stored command is the built one between `\(` and `\)`, and can be cut back out |
| Commands.AddCmd | literate.py:64-108 | `add_cmd` raises, returns False or returns True as `Command` does; only on True does it set `latex_cmd`, to the delimited command |
| Commands.BoldFrakturExample | literate.py:80-81 | `\bfrakA` gives `\bm{{\mathfrak{A}}}` |
| Commands.DoubleStruckDigitExample | literate.py:85-86 | the double-struck digit one, alias `\bbone`, gives `\mathbb{1}` from its digit value |
| Commands.UprightGreekExample | literate.py:55-56 | after the prefix `\bf`, `alpha` becomes `\upalpha` |
| Commands.VariantGreekExample | literate.py:57-59 | after the prefix `\it`, `Gamma` becomes `\varGamma` |
| Commands.SuperscriptExample | literate.py:67-68 | the script alias `\^h` gives `{}^h` |
| Commands.DoubleStruckItalicExample | literate.py:82-84 | `\bbiD` gets no command |
| Filter.Screen | literate.py:117-180 | a category outside {Lu, Ll, Lm, Nd} is skipped. Screening raises only IndexError, for a name of fewer than two words, or AttributeError, for a missing alias |
| Filter.ScreenIsEligible | literate.py:120-180 | for a name of two or more words and an alias, screening never raises. It passes exactly the eligible characters, with `\upepsilon` renamed to `\epsilon` |
| Filter.GreekStageIsEligible | literate.py:155-180 | the GREEK/MATHEMATICAL tests drop upright aliases other than `\upepsilon`, aliases ending in a `greek_blacklist` entry (checked on the alias before renaming) and sans-serif Greek letters |
| Filter.UpepsilonIsUpright | literate.py:157-160 | `\upepsilon` counts as upright, so it is the alias that gets renamed |
| Filter.BlankNameRaises | literate.py:128-129 | a kept category with a blank name raises IndexError at `sname[0]` |
| Filter.OneWordNameRaises | literate.py:129-140 | a kept category with a one-word name raises IndexError at `sname[1]` or `sname[-2]` |
| Filter.Admit | literate.py:117-190 | a character the main loop appends has its own character, a kept category and a delimited command |
| Filter.AdmitIsEligible | literate.py:117-190 | for a character with an alias and a name of two or more words, the main loop appends it exactly when it is eligible and `add_cmd` builds a command. The record then holds the renamed alias and the delimited command |
| Filter.AlphaAdmitted | literate.py:117-190 | α, GREEK SMALL LETTER ALPHA with the alias `\alpha`, is kept by the main loop with the command `\(\upalpha\)` |
| Filter.AdmitNeedsAlias | literate.py:140-182 | a character without an alias is never appended: it is skipped or it raises |
| Filter.MainPassRaisePersists | literate.py:118-190 | an exception in the main loop ends the whole pass with that exception |
| Filter.PatchPassRaisePersists | literate.py:193-196 | an exception in the patch loop ends it with that exception |
| Filter.Visit | literate.py:119-190 | one turn of the main loop raises, skips or appends a fresh `Character` exactly as `Admit` says, with the same field values |
| Filter.PatchOne | literate.py:194-196 | one turn of the patch loop builds a fresh `Character` whose command is its alias, delimited; a missing alias raises TypeError |
| Filter.MainTurn | literate.py:118-190 | one turn of the main loop extends a list that matches the first symbols into one that matches one more symbol, or raises as the pass does |
| Filter.PatchTurn | literate.py:193-196 | one turn of the patch loop extends a list that matches the first characters into one that matches one more, or raises as the pass does |
| Filter.MainLoop | literate.py:117-190 | the main loop's list of objects has exactly the field values `MainPass` gives, or the loop raises the same exception |
| Filter.PatchLoop | literate.py:192-196 | the patch loop's objects have exactly the field values `PatchPass` gives, or the loop raises the same exception |
| Filter.CollectCharacters | literate.py:117-196 | both loops together build objects whose field values are `Table`, or raise its exception |
| Filter.MainPassAdmitted | literate.py:117-190 | every record the main pass keeps is what admitting its character gives |
| Filter.MainPassSkips | literate.py:117-190 | a character that is not admitted is absent from the main pass |
| Filter.MainPassInOrder | literate.py:118-190 | the main-pass survivors are a subsequence of the symbols, in table order |
| Filter.MainPassDistinct | literate.py:118-190 | with distinct symbols, the main pass holds no character twice |
| Filter.PatchPassRecords | literate.py:193-196 | the patch pass yields the five characters in order, each with its alias and with `\(` + alias + `\)` as its command |
| Filter.TableDelimited | literate.py:107-195 | every record of the table carries a command between `\(` and `\)` |
| Filter.TableInOrder | literate.py:117-196 | the table is the main-pass survivors in symbol order, followed by ħ, ℵ, ℶ, ℷ, ℸ |
| Filter.LatinLetterNotAdmitted | literate.py:129-139 | a small Latin letter that is not a subscript is skipped |
| Filter.HbarNotAdmitted | literate.py:129-139 | ħ, LATIN SMALL LETTER H WITH STROKE, is skipped by the main loop |
| Filter.OtherLetterNotAdmitted | literate.py:120-127 | a letter of category Lo, such as ℵ, ℶ, ℷ and ℸ, is skipped |
| Filter.PatchCharsNotAdmitted | literate.py:120-139 | given their Unicode records, none of the five patched characters survives the main loop |
| Filter.TableDistinct | literate.py:117-196 | given distinct symbols and the patched characters' records, the table holds no character twice: the patch loop re-adds only characters the main loop dropped |
| Declaration.EntryIsFormatted | literate.py:201 | an entry is what the f-string `{{{c}}}{{{{{cmd}}}}}1` yields: `{c}{{cmd}}1` |
| Declaration.Entries | literate.py:201-202 | one entry per record, in order |
| Declaration.Literate | literate.py:200-203 | the declaration is the `\lstset{extendedchars=true,literate=` header, the entries joined by single spaces, and `}`; an empty list gives exactly `\lstset{extendedchars=true,literate=}` |
| Declaration.Replacements | literate.py:201-202 | one replacement per record: its character and its command |
| Declaration.DecodeEntryOfEntry | literate.py:201 | an entry reads back as its character and its command |
| Declaration.DecodeEntriesOfEntries | literate.py:201-202 | a list of entries reads back as the list of replacements |
| Declaration.DecodeLiterate | literate.py:200-203 | when no character or command holds white space, the declaration reads back as its characters with their commands, in order |
| Declaration.DeclarationOfTable | literate.py:193-203 | the declaration of the script's table holds one replacement per table record, in order; each gives the record's character and its delimited command |

## Left out

- The Unicode database (`ud.category`, `ud.name`, `ud.digit`) is a parameter: a total function from a character to its category, name and optional digit value.
- Characters.Character.constructor: `ud.name` raises ValueError for a character without a name; the model gives every character a name.
- IPython's `latex_symbols` and `reverse_latex_symbol` are parameters. The values of `latex_symbols`, in iteration order, are the symbol sequence; the reverse table is a map.
- `print` diagnostics, `Character.__str__`, the pandas `DataFrame`, both `codecs.open` writes and the `textwrap.wrap` test text are I/O or library behaviour, and are not modelled.
- PyFormat.Format: only the syntax the script uses is modelled, which is auto-numbered `{}` fields and doubled braces. Other syntax, such as explicit indices, names and format specifications, raises ValueError in the model.
- Filter.Screen: line 147 throws away the result of `replace('epsilon', 'varepsilon')`, so the model leaves the alias unchanged there.
- Commands.BoldTemplate: `BF_CMD.format(x)` is `\bm{{x}}`, with double braces, as the code has it.
- Commands.UprightGreekExample: the Greek examples are stated for `latex_char`, not for a whole `add_cmd` run. `FallbackCommand` and `LatexCharModifier` cover the general case, and `AlphaAdmitted` follows α through the whole main loop.
- Filter.Screen: for a missing alias, its contract states only the possible exceptions. The exact verdicts are stated by ScreenIsEligible, for a name of two or more words with an alias, and by AdmitNeedsAlias.
- Filter.TableDistinct: assumes distinct symbols. `latex_symbols` can map several aliases to one character, and then the script appends that character more than once.
- Declaration.DecodeLiterate: assumes no white space in a character or a command, because the decoder splits entries at white space.
