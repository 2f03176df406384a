# Book store, comment store and data-frame cleaner, modelled in Dafny

This project models the core of two Python coursework programs.

- `A3/assignment3_code.py` has three parts:
  - `helperClass`: the string helpers `maxLength`, `add_hyphen`, `wrap_text` and `preview_limit`.
  - `bookData`: a list of book dictionaries. It formats ISBNs (`toISBN`), checks them against the ISBN-13 check-digit rule (`valid`, `validateISBNs`), and filters and sorts the books (`printByTitle`, `printByAuthor`, `printOverPrice`, `printAllBooksSorted`).
  - `commentData`: a list of comment records. It searches them by a field (`printByVar`), keeps those above a numeric threshold (`printOverVar`) and sorts them by a field (`printCommentsSorted`).
- `A2/A2.py` has two parts:
  - `CleanerClass`: holds a data frame and drops rows from it (`drop_missing_adjustment`, `rm_empty_rows`, `rm_zero_rows`, `rm_unmatched_signs`). Each step reports the count from `count_removed_rows`.
  - `TimeAndMemory`: its naive `substring_check`, the selection sort inside `sort_ints`, and the `save_results` dictionary.

The modules follow the program's structure:

| file | module | what it holds |
|---|---|---|
| `wrappers.dfy` | `Wrappers` | `Option`, the Python exception kinds, and a `Result` that carries them |
| `pytext.dfy` | `PyText` | Python semantics the code relies on: `str.lower`, `str.isdigit`, whitespace, `in` on strings, code-point string order, `str()` of a value, and slicing `s[:k]` and `s[k:]` (negative `k` included) |
| `sequences.dfy` | `Sequences` | order-preserving filters (list comprehensions with an `if`) and a stable `sorted(key=..., reverse=...)` |
| `helpers.dfy` | `Helpers` | `helperClass` |
| `books.dfy` | `Books` | `bookData`, as the class `BookData` |
| `comments.dfy` | `Comments` | `commentData`, as the class `CommentData` |
| `cleaner.dfy` | `Cleaner` | `CleanerClass`, over a frame that is a list of columns and a list of rows |
| `timing.dfy` | `Timing` | `TimeAndMemory` |

Every Python exception is modelled as an `Err` result that names it.

Objects whose attributes the code changes are Dafny classes with that attribute as a field. `self.books` and `self.df` are reassigned. `self.results` is a dictionary that `save_results` updates in place; it is modelled as a `map` field that `SaveResults` replaces with the updated map. The methods that change a field are `modifies` methods. Each such method states:
- the new value of the field;
- when the field is left untouched, because an exception is raised before the assignment.

`commentData` is also a class. Its field `self.comments` is set only by the constructor, so none of its members modifies it.

The filters and sorts that return a fresh object return that object's list. `ByTitle`, `ByAuthor`, `OverPrice`, `AllBooksSorted` and `CommentsSorted` are `reads` functions. `PrintByVar` and `PrintOverVar` are methods with loops, like the Python code.

Some behaviour of the code as written:
- `count_removed_rows` builds a TypeError and never raises it.
- When the second frame is the larger, its error message names variables that do not exist. It therefore raises NameError, not the ValueError it intends.
- On an empty first frame it divides by zero.
- `save_results` builds a ValueError for an unknown name and never raises it.
- `printByVar` returns the whole store when nothing matches.
- `printOverVar` applies the limit and then returns None if nothing is left.

## Model

| member | source | states |
|---|---|---|
| Helpers.MaxLength | A3/assignment3_code.py:43-56 | ValueError exactly when no record has the key; otherwise the result is at least the length of `str(item[key])` for every record that has the key, and equals it for one of them |
| Helpers.AddHyphen | A3/assignment3_code.py:84-94 | ValueError exactly when the index is outside `0 .. len-1`; otherwise the result is one character longer, has a hyphen at the index, and keeps the text before and after it |
| Helpers.AddHyphenRoundTrip | A3/assignment3_code.py:94 | deleting the hyphen at the index gives the original string back |
| Helpers.PreviewLimit | A3/assignment3_code.py:184-188 | a text no longer than the limit comes back unchanged; a longer one becomes `text[:limit]` plus "...", so with a non-negative limit it is at most limit + 3 characters long |
| Helpers.PreviewLimitIdempotent | A3/assignment3_code.py:184-188 | with a non-negative limit, previewing a preview changes nothing |
| Helpers.PreviewLimitNegativeNotIdempotent | A3/assignment3_code.py:184-188 | with a negative limit, Python's negative slice makes a second preview cut the text again ("abc" at -1) |
| Helpers.ReplaceNewlines | A3/assignment3_code.py:129 | each "\n" becomes " " and every other character stays where it was, so the length is kept |
| Helpers.ReplaceNewlinesNoSpace | A3/assignment3_code.py:129 | replacing newlines leaves the non-whitespace characters exactly as they were |
| Helpers.Split | A3/assignment3_code.py:131 | every piece of `text.split()` is a non-empty run without whitespace |
| Helpers.SplitNoSpace | A3/assignment3_code.py:131 | joining the words gives the text with its whitespace removed |
| Helpers.SplitGaps | A3/assignment3_code.py:131 | the words of `text.split()` put back between runs of whitespace give the text, with a non-empty run between any two words, so each word is a maximal non-whitespace run |
| Helpers.SplitUnique | A3/assignment3_code.py:131 | any cutting of the text into words with runs of whitespace around them, non-empty between two words, is `text.split()` |
| Helpers.SplitCharacterised | A3/assignment3_code.py:131 | a list is `text.split()` exactly when its words, put between runs of whitespace that are non-empty between two words, give the text |
| Helpers.Chunks | A3/assignment3_code.py:137-139 | the inner loop cuts a word into pieces exactly `width` long and a remainder no wider than `width`; together they are the word |
| Helpers.ChunksOfWord | A3/assignment3_code.py:137-139 | the pieces and the remainder of a word are words |
| Helpers.WrapLinesBounded | A3/assignment3_code.py:135-150 | every line `wrap_text` returns fits the width |
| Helpers.WrapLinesChars | A3/assignment3_code.py:129-152 | the lines hold the same non-whitespace characters as the text, counted with multiplicity (order aside) |
| Helpers.WrapEmitsEmptyLine | A3/assignment3_code.py:142-146 | a word exactly as wide as the line, met with an empty current line, first emits an empty line ("abc" at width 3 gives "", "abc") |
| Helpers.WrapReorders | A3/assignment3_code.py:137-146 | the pieces of a long word are emitted before the pending line: "ab cdefg" at width 3 gives "cde", "ab", "fg" |
| Helpers.WrapText | A3/assignment3_code.py:129-152 | the loop computes the reference wrap; every line fits the width; no non-whitespace character is lost or invented |
| Helpers.ChunkLoopStuck | A3/assignment3_code.py:137-139 | with a width below 1, one `word = word[width:]` reaches a word that the next cut leaves unchanged and that is still longer than the width, so the inner loop never ends |
| Helpers.WrapTextChecked | A3/assignment3_code.py:129-152 | the corrected wrap: ValueError exactly for a width below 1; otherwise the reference wrap, with every line within the width and the same non-whitespace characters |
| Helpers.WrapFixedBounded | A3/assignment3_code.py:135-150 | the corrected wrap also keeps every line within the width |
| Helpers.WrapFixedPreservesOrder | A3/assignment3_code.py:129-152 | the corrected wrap, which flushes the pending line before cutting a long word, keeps the non-whitespace characters in their original order |
| Books.Hyphenated | A3/assignment3_code.py:418-424 | the formatted ISBN is four characters longer, has hyphens at positions 3, 5, 9 and 15, and removing them gives the input back |
| Books.InsertHyphensIsbn | A3/assignment3_code.py:418-424 | the four `add_hyphen` calls succeed exactly on a string of at least 13 characters, giving the formatted ISBN; otherwise ValueError |
| Books.InsertHyphensFailed | A3/assignment3_code.py:421-422 | once one insertion raises, the outcome is that error |
| Books.ToIsbn | A3/assignment3_code.py:416-424 | the loop gives the result of the four insertions in turn: ValueError exactly when `str(isbn)` is shorter than 13 characters, otherwise the formatted ISBN |
| Books.Valid | A3/assignment3_code.py:452-476 | ValueError exactly when `str(isbn)` is not 13 decimal digits; otherwise True exactly when the last digit equals 10 minus the weighted sum of the first twelve modulo 10 |
| Books.PassesCheckIsoValid | A3/assignment3_code.py:471-476 | `valid` accepts exactly the ISO-valid ISBNs whose weighted sum of the first twelve digits is not a multiple of 10, that is, whose check digit is not 0 |
| Books.ValidRejectsZeroCheckDigit | A3/assignment3_code.py:471-476 | 9780000000200 is ISO-valid (weighted sum 40) and `valid` rejects it |
| Books.PassesCheckFixedIsoValid | A3/assignment3_code.py:471 | with the final `% 10`, the test accepts exactly the ISO-valid ISBNs |
| Books.BookData.constructor | A3/assignment3_code.py:383-388 | the store holds the given books |
| Books.BookData.ValidateIsbns | A3/assignment3_code.py:498-511 | ValueError exactly when some book's ISBN is malformed, leaving the store unchanged; otherwise the store becomes the books whose ISBN passes `valid`, in their original order |
| Books.BookData.ByTitle | A3/assignment3_code.py:615-621 | the books whose title contains the search text, ignoring case, in their original order, and no others |
| Books.BookData.ByAuthor | A3/assignment3_code.py:661-667 | the books whose author contains the search text, ignoring case, in their original order, and no others |
| Books.BookData.OverPrice | A3/assignment3_code.py:706-712 | the books priced above the threshold, in their original order, and no others |
| Books.BookData.AllBooksSorted | A3/assignment3_code.py:750-762 | ValueError when the lower-cased name is not price, title or author; KeyError when there are books and the name is not spelt as the key; otherwise the first `limit` books of a stable sort by that key, ordered and drawn from the store, and all of them when there is no limit |
| Books.LowerCaseNameFails | A3/assignment3_code.py:750-754 | as written, a lower-case name (price, title or author) passes the check and then raises KeyError on a non-empty store, while the corrected version sorts |
| Books.BookData.AllBooksSortedFixed | A3/assignment3_code.py:750-762 | the name is matched ignoring case: ValueError exactly when it is not price, title or author in some case; otherwise the books stably sorted by the matching key, ordered, drawn from the store, and all of them when there is no limit |
| Books.FixedAgreesOnKeys | A3/assignment3_code.py:750-757 | on the names Price, Title and Author, the corrected and the original version give the same result |
| Comments.Matches | A3/assignment3_code.py:952-959 | the comments are kept in order exactly when their string field contains the search text ignoring case, or their number field equals the search value |
| Comments.CommentData.constructor | A3/assignment3_code.py:776-781 | the store holds the given comments |
| Comments.CommentData.PrintByVar | A3/assignment3_code.py:940-973 | IndexError on an empty store; ValueError when the first comment lacks the field; AttributeError exactly when the search value is a number and some comment holds a string there; otherwise the matching comments in order, or the whole store when none matches |
| Comments.Over | A3/assignment3_code.py:1021-1025 | the comments are kept in order exactly when their field exceeds the threshold |
| Comments.OverNarrow | A3/assignment3_code.py:1021-1025 | filtering the comments over a lower threshold by a higher one gives the comments over the higher one |
| Comments.CommentData.PrintOverVar | A3/assignment3_code.py:1011-1041 | IndexError on an empty store; ValueError unless the first comment's field holds a number; TypeError exactly when some comment lacks the field or holds another kind of value in it; otherwise the first `limit` comments over the threshold, in order, or None when that leaves nothing |
| Comments.CommentData.CommentsSorted | A3/assignment3_code.py:1075-1094 | IndexError on an empty store; ValueError for "body" or a field the first comment lacks; KeyError exactly when some comment lacks the field; TypeError exactly when the field holds numbers in some comments and strings in others; otherwise the first `limit` comments of a stable sort on the field, ordered, drawn from the store, and all of them when there is no limit |
| Sequences.SortBy | A3/assignment3_code.py:754 | `sorted` gives a permutation of its input, ordered by key (descending for reverse), in which items with equal keys keep their relative order |
| Cleaner.CountRemovedRows | A2/A2.py:405-418 | NameError when the second frame has more rows; ZeroDivisionError when the first has none; otherwise the number removed, which added to the second count gives the first |
| Cleaner.Filtered | A2/A2.py:363-372 | the columns stay, and the rows are exactly those the mask accepts, in their original order |
| Cleaner.CountAfterFilter | A2/A2.py:408-418 | after a filter, the count fails only on an empty frame, and otherwise reports the number of rows the mask rejected |
| Cleaner.FilteredIdempotent | A2/A2.py:363-372 | running a cleaning step a second time removes nothing more |
| Cleaner.Subset | A2/A2.py:460 | the checked columns are all the columns other than the ignored one, or all columns when none is ignored |
| Cleaner.Ignored | A2/A2.py:453 | None and the empty string both mean no column is ignored |
| Cleaner.MissingNeverUnmatched | A2/A2.py:571-574 | a row with a missing value in each compared pair never fails the sign test |
| Cleaner.EmptyRowNotZeroRow | A2/A2.py:453-528 | a row missing every checked value survives `rm_zero_rows` (NaN is not 0) but not `rm_empty_rows` |
| Cleaner.EmptySubsetDropsAll | A2/A2.py:453-528 | with no column left to check, both steps drop every row |
| Cleaner.CleanerClass.constructor | A2/A2.py:71-73 | the cleaner holds the given frame |
| Cleaner.CleanerClass.Apply | A2/A2.py:371-372 | ZeroDivisionError exactly on an empty frame, which leaves the frame unchanged; otherwise the frame becomes the filtered one and the count is the number of rejected rows |
| Cleaner.CleanerClass.DropMissingAdjustment | A2/A2.py:354-373 | ValueError for a pair not of length two or a column the frame lacks; any error leaves the frame unchanged; otherwise it drops the rows in which a pair has its first value and misses its second, and with valid arguments it fails only on an empty frame, with ZeroDivisionError; the count is the number of rows dropped |
| Cleaner.CleanerClass.RmEmptyRows | A2/A2.py:453-474 | ValueError when the column to ignore is not in the frame; any error leaves the frame unchanged; otherwise the rows with no value in the checked columns go, and with a valid column it fails only on an empty frame, with ZeroDivisionError; the count is the number of rows dropped |
| Cleaner.CleanerClass.RmZeroRows | A2/A2.py:509-528 | ValueError when the column to ignore is not in the frame; any error leaves the frame unchanged; otherwise the rows in which every checked value is 0 go, and with a valid column it fails only on an empty frame, with ZeroDivisionError; the count is the number of rows dropped |
| Cleaner.CleanerClass.RmUnmatchedSigns | A2/A2.py:566-579 | ValueError when a column is missing; any error leaves the frame unchanged; otherwise the rows in which (col1, col3) or (col2, col4) have opposite signs go, and with valid columns it fails only on an empty frame, with ZeroDivisionError; the count is the number of rows dropped |
| Timing.Save | A2/A2.py:1129-1132 | a known algorithm name gets the new table; any other name leaves the dictionary as it was; other entries are untouched |
| Timing.SaveKeepsKeys | A2/A2.py:1129-1132 | saving only ever creates entries for the investigated algorithms |
| Timing.SaveIdempotent | A2/A2.py:1129-1132 | saving the same table twice is the same as saving it once |
| Timing.TimeAndMemory.constructor | A2/A2.py:774-810 | the results dictionary starts as the given tables |
| Timing.TimeAndMemory.SaveResults | A2/A2.py:1129-1132 | the results dictionary becomes the saved one |
| Timing.TimeAndMemory.SubstringCheck | A2/A2.py:1015-1026 | ValueError exactly when either string is empty; otherwise True exactly when the substring occurs in the string; False at once when it is longer |
| Timing.SwapMinimum | A2/A2.py:938-945 | one outer pass of the selection sort lengthens the sorted prefix that no later element undercuts, and permutes the array |
| Timing.TimeAndMemory.SortInts | A2/A2.py:931-945 | ValueError exactly for a non-positive length, leaving the array untouched; otherwise the array ends sorted; either way it holds the same multiset of values |

## Left out

- The `isinstance` checks that raise TypeError (in `add_hyphen`, `wrap_text`, `printByTitle`, `printByAuthor`, `printOverPrice`, `drop_missing_adjustment`, `rm_empty_rows`, `rm_zero_rows` and `sort_ints`): the Dafny parameter types rule those inputs out.
- `substring_check` raises ValueError, not TypeError, when an argument is not a string. The Dafny parameter types rule that input out too.
- Printing is not modelled: the `show` and `preview_only` flags, the tables of `printAllBooks` and `printAllComments`, and the messages about removed books. Except for the cleaner steps, the Dafny members return what the Python methods return or store.
- The cleaner steps (`drop_missing_adjustment`, `rm_empty_rows`, `rm_zero_rows`, `rm_unmatched_signs`) return `self` for chaining and print the message from `count_removed_rows`. The Dafny methods return that message's removed count instead, as `Ok(n)`, or the exception the step raises.
- A method that returns a fresh `bookData` or `commentData` for chaining is modelled as returning that object's list.
- `count_removed_rows` returns a message with the removed count and a rounded percentage. Only the integer count is modelled, because floating point is not.
- Timing.TimeAndMemory.SortInts: `sort_ints` sorts an array of random numbers. Here the array is a parameter of the given length, and the clock and memory measurements are not modelled.
- Timing.TimeAndMemory.SaveResults: `self.results` is one dictionary updated in place. The model replaces a `map` value, so aliasing is not captured: a caller that holds a reference to that dictionary would see the update in Python.
- Default arguments are not modelled: every parameter is passed explicitly. `preview_limit`'s `max_length` defaults to 50, `reverse_param` to False, and `limit` and `col_to_ignore` to None (`Option.None` here).
- The hard-coded tables of earlier measurements in the `TimeAndMemory` constructor are given as an arbitrary initial dictionary.
- A book has exactly the keys ISBN, Title, Author and Price. Prices are whole pence, not floats, so the KeyError of a book missing a key is not modelled.
- Values are integers or strings. Python floats and booleans, and `1 == 1.0`, are not modelled.
- `str.lower` and `str.isdigit` are modelled on the ASCII range only.
- Frame cells are integers or missing. Float cells, column dtypes and the renumbered index from `reset_index` are not modelled; the row order is.
- Helpers.WrapText: requires a width of at least 1 unless the text has no words. With a smaller width and a word, the inner `while` loop never ends (see Findings), which a terminating Dafny method cannot model.
- The remaining helpers (`get_url`, `encode_json`, the random generators) and `add_field` are not part of this model. Nor are the other `CleanerClass` and `TimeAndMemory` methods.

## Findings

| source | as written | input that shows it | evidently intended | confidence | as-written member | corrected member |
|---|---|---|---|---|---|---|
| A3/assignment3_code.py:137-146 | the pieces of a word longer than the width are appended before the pending current line | `wrap_text("ab cdefg", 3)` gives "cde", "ab", "fg" | flush the pending line first, keeping the text in order: "ab", "cde", "fg" | not executed | Helpers.WrapReorders | Helpers.WrapFixedPreservesOrder |
| A3/assignment3_code.py:471-476 | the check digit is `10 - sum % 10`, with no final `% 10` | `valid(9780000000200)` is False, although the ISBN is valid under ISO 2108 | `(10 - sum % 10) % 10`, so a check digit of 0 is accepted | not executed | Books.ValidRejectsZeroCheckDigit | Books.PassesCheckFixedIsoValid |
| A3/assignment3_code.py:137-139 | for a width below 1, `word[width:]` never makes the word shorter than the loop's bound | `wrap_text("a", 0)` never returns | reject a width below 1 | not executed | Helpers.ChunkLoopStuck | Helpers.WrapTextChecked |
| A3/assignment3_code.py:750-754 | the name is checked in lower case, but the key is looked up as given | `printAllBooksSorted("price")` on a non-empty store raises KeyError | case-insensitive sorting, as the method's documentation says | not executed | Books.LowerCaseNameFails | Books.BookData.AllBooksSortedFixed |

The store methods model `valid` and `printAllBooksSorted` as written. The corrected definitions are `Helpers.WrapLinesFixed`, `Helpers.WrapTextChecked`, `Books.PassesCheckFixed` and `Books.BookData.AllBooksSortedFixed`, and the corrected-member lemmas state their properties.
