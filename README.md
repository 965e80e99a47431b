# fix-duplicate-methods, modelled in Dafny

`scripts/fix-duplicate-methods.py` repairs `src/services.tsx` when the method
`getPrioritizedPages` has been pasted into it more than once. It locates every
block that starts with the method's header and runs to the first following line
that begins with four spaces and `}`. It keeps the first block and cuts out the
others, last one first, so the offsets of the blocks still to be cut stay valid.
It writes the file back only when it cut something.

The model has three modules:

- `Locator` (`locator.dfy`) is the block locator. The pattern on line 14 is a
  concrete scanner over the text. `MatchAt` is one anchored match attempt, and
  `FindCloser` finds the earliest line-start `    }` after the header.
  `re.finditer` is the recursive scan `FindAll`: try each offset in turn, and
  after a match resume at its end. `Leftmost` is an independent reference
  definition of what finditer returns, built from the match relation `IsMatch`,
  and `FindAllCharacterized` proves that the two agree. The header is a
  parameter of the locator. The script's own header is the constant
  `Locator.Header`.
- `Splice` (`splice.dfy`) is the keep-first splicer. `Excise` and `KeepFirst`
  specify the result: the text with every block but the first cut out.
  `Outside` is the reference definition, the uncovered characters in order.
  `RemoveLater` is the backward loop of lines 22-25. It is proved to produce
  `KeepFirst`, and its loop invariant states that every span not yet cut still
  indexes its original text.
- `FixDuplicateMethods` (`fix_duplicate_methods.dfy`) is the script as a whole.
  It returns the match count, whether the file would be written, the text
  written, and the number of blocks removed.

## Model

| member | source | states |
|---|---|---|
| Locator.CloserAt | scripts/fix-duplicate-methods.py:14 | defines where `^    \}` matches under re.MULTILINE: four spaces and `}` at the start of the text or just after a newline |
| Locator.IsMatch | scripts/fix-duplicate-methods.py:14 | defines a match of the pattern at p: the header at p, then the lazy body up to the earliest line-start closer after the header, `}` included |
| Locator.Leftmost | scripts/fix-duplicate-methods.py:15 | defines what finditer returns without the scan: the chain of leftmost matches, each searched from the end of the previous one, with no match starting in any gap |
| Splice.Excise | scripts/fix-duplicate-methods.py:22-25 | defines the text from an offset on with ordered spans cut out, the result of `content[:start] + content[end:]` for each span |
| Splice.KeepFirst | scripts/fix-duplicate-methods.py:19-25 | defines the text the script writes: unchanged with fewer than two matches, otherwise every match but the first cut out |
| Splice.Outside | scripts/fix-duplicate-methods.py:20-25 | defines the reference for what the output keeps: the characters no span covers, in their original order |
| Locator.FindCloser | scripts/fix-duplicate-methods.py:14 | the result is the earliest offset at or after `from` where `    }` starts a line, or None when there is no such offset at all |
| Locator.MatchAt | scripts/fix-duplicate-methods.py:14 | the anchored attempt yields exactly the spans that match: header at p, lazy body, the earliest line-start `    }` after the header, `}` included |
| Locator.MatchBounds | scripts/fix-duplicate-methods.py:14 | a match is non-empty and lies inside the text |
| Locator.FindAll | scripts/fix-duplicate-methods.py:14-15 | the matches found are ordered, lie within the text and do not overlap, and each one is a match of the pattern at its start |
| Locator.FindAllIsLeftmost | scripts/fix-duplicate-methods.py:15 | the scan returns the chain of leftmost matches: no match starts in any gap it skips, and each later match is searched from the end of the previous one |
| Locator.LeftmostIsFindAll | scripts/fix-duplicate-methods.py:15 | any chain of leftmost matches is the list the scan returns |
| Locator.FindAllCharacterized | scripts/fix-duplicate-methods.py:15 | a list is the chain of leftmost non-overlapping matches if and only if it is the scan's result |
| Locator.UnclosedHeaderEndsScan | scripts/fix-duplicate-methods.py:14-15 | a header with no line-start closer after it does not match, and the scan finds nothing from there on |
| Locator.FirstMatchAfterGap | scripts/fix-duplicate-methods.py:15 | when no match starts between pos and a and one starts at a, the scan from pos reports that one first |
| Locator.MatchDependsOnPrefix | scripts/fix-duplicate-methods.py:14 | whether a span matches depends only on the text up to its end |
| Locator.NoHeaderBeforeFirst | scripts/fix-duplicate-methods.py:14-15 | the header occurs nowhere before the first match, because such a header would itself have matched |
| Splice.ExciseLength | scripts/fix-duplicate-methods.py:23-25 | cutting the spans out shortens the text by exactly the sum of their `end - start` |
| Splice.ExciseSplit | scripts/fix-duplicate-methods.py:25 | text before the first span cut is copied unchanged |
| Splice.OutsideUncovered | scripts/fix-duplicate-methods.py:20-25 | uncovered characters are kept, in order |
| Splice.OutsideCovered | scripts/fix-duplicate-methods.py:20-25 | covered characters contribute nothing |
| Splice.CoverAfter | scripts/fix-duplicate-methods.py:20-25 | from the end of the first of ordered spans on, a position is covered exactly when one of the other spans covers it |
| Splice.ExciseIsOutside | scripts/fix-duplicate-methods.py:20-25 | cutting the spans out leaves exactly the characters no span covers, in their original order |
| Splice.KeepFirstKeepsFirst | scripts/fix-duplicate-methods.py:20-22 | the first block, and everything before it, appears unchanged at its original offsets in the result |
| Splice.KeepFirstRemovesLater | scripts/fix-duplicate-methods.py:20-25 | with two or more matches, the result is the original minus the spans of the second to last match: its length drops by their summed width, and it holds every character outside them in order |
| Splice.CutStep | scripts/fix-duplicate-methods.py:25 | one iteration: cutting span i out of the text that already lacks the later spans gives the text that lacks span i and all later ones |
| Splice.PrefixKept | scripts/fix-duplicate-methods.py:21-25 | after the spans from i on are cut, every earlier span still indexes the text it indexed in the original |
| Splice.RemoveLater | scripts/fix-duplicate-methods.py:19-25 | the backward loop yields the original with every match but the first cut out; its invariant says the spans still to be cut index their original text |
| FixDuplicateMethods.KeptBlockFoundFirst | scripts/fix-duplicate-methods.py:14-25 | scanning the repaired text finds the kept block first, at the same span |
| FixDuplicateMethods.FixDuplicateMethods | scripts/fix-duplicate-methods.py:15-33 | the count is the number of matches; the file is written exactly when there are more than one; then the removed count is matches - 1 and the text is the keep-first result; otherwise the text is unchanged and nothing is removed |

## Left out

- Reading and writing `src/services.tsx` (lines 10-11, 28-29) are I/O. The file's text is the input string, and `written` says whether the write happens.
- The console messages (lines 17, 24, 31, 33) are left out. The counts they report are returned as `found` and `removed`.
- Python's general `re` engine is not modelled. Only this one pattern is, as a scanner with the semantics of `[\s\S]*?` and `^` under `re.MULTILINE`.
- UTF-8 decoding is not modelled. Python indexes the decoded text by code point, so the text is a sequence of characters.
- Idempotence and "exactly one block afterwards" are not proved: the script does not ensure them, because cutting a span can join the surrounding text into a new header. `FixDuplicateMethods.KeptBlockFoundFirst` proves the part that does hold: the kept block is still the first one found.
- With no match at all the script does not fail: as with a single match, it prints that no duplicates were found and writes nothing (line 33). The model returns the text unchanged with `written` false.
- Line endings are not modelled. Line 10 opens the file in text mode, so `\r\n` and a lone `\r` become `\n` before the pattern sees the text, and line 29 writes `\n` endings back for the whole file. The model's input is that translated text, not the file's bytes.
- A replace-all variant, which deletes every copy and inserts a canonical block, is not part of this model. No such code is present.
