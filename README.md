# csc116_fall2018 in Dafny

A model of the C++ teaching programs of the csc116_fall2018 course
repository, with proofs about them.

- **Text processing.** Splitting a line into words at a delimiter, and squeezing delimiter runs (`strip`). A word-frequency table built from split lines. Linear searches over an `int` vector. Duplicate-word detection in two variants. Substrings in two variants. Filling a vector with a range. Reading a 24-hour time as a 12-hour `Time`. Inverting letter case in place. Merging words into one lower-case string.
- **Numbers and sets.** Sums below a bound, by a loop and by recursion. `maxVal` and the exception flow of `foo`/`bar`/`baz`. Set equality in two variants. The accumulate templates and `abs`.
- **Linked structures.** The singly linked `List` and the FIFO `Queue` built on it. The exercise list with `removeIndex`. The list printed forwards by a loop and backwards by recursion.
- **Parameter passing.** The programs that exercise by-value and by-reference parameters: `swap`, `why`/`madness`, and `madness`/`into`/`descend`.
- **Logger.** The singleton that maps stream names to sinks.

How C++ maps to Dafny:
- Each program, or each group of files that make up one program, is one Dafny module; `Logging` holds logger.hpp, logger.cpp and sink.hpp together.
- Four modules match no source file: `Machine` (machine integers and exceptions), `Seqs` (sequence helpers), `Ascii` (the `<cctype>` functions) and `Chain` (the node chain shared by the linked lists).
- Loops become methods with loop invariants. Each is proved against a specification function, and the source's promises are proved about that function as lemmas.
- Objects whose fields change become classes. A linked list keeps its nodes on the heap, described by a ghost sequence of nodes and one of values.
- A thrown exception is a `Result` value (module `Machine`).
- C++ `int` arithmetic that can overflow uses the `int32` newtype, with a precondition that excludes the overflow, because signed overflow is undefined behaviour. This covers `Fill.FillRange`'s counter, `Substrings`, `Exceptions`, `Folds.Abs`, `Miscellany`, `References`, `Tracing` and `Parameters`.
- `int` values that are only stored, compared or passed along are plain unbounded `int`: the search and sum vectors, the word table, `Time`, the fill and fold vectors, and the list elements. Sums and counters over them that could overflow in C++ are listed under "## Left out".
- Output written to `std::cout` is returned as a sequence, one element per printed line or value. `TimeFormat.TellTime` is the exception: it returns the `Time` whose fields q6.cpp prints as "It is: h:m am/pm", not the printed line.
- Each `main` becomes a `...Demo` method that proves the program's concrete result.

`Logger::addSink` uses `std::map::insert`, which keeps the first sink registered under a name; a second `addSink` under that name has no effect (`Logging.Logger.AddSink`, `Logging.FirstBindingDemo`).

## Model

| member | source | states |
|---|---|---|
| Splitting.SplitWords | lectures/week_2/code/split.cpp:5-46 | the character loop with its `word` and `isSpace` state returns exactly `Split(s, delim)` |
| Splitting.SplitWordsHaveNoDelim | lectures/week_2/code/split.cpp:14-28 | no output word contains the delimiter |
| Splitting.SplitConcat | lectures/week_2/code/split.cpp:11-43 | concatenating the words gives the input with every delimiter removed |
| Splitting.SplitShape | lectures/week_2/code/split.cpp:10-43 | every word but the first is non-empty; the first is empty iff the input is empty or starts with the delimiter |
| Splitting.SplitNoTrailingEmpty | lectures/week_2/code/split.cpp:38-43 | unless the input is empty or only delimiters, the last word is non-empty |
| Splitting.SplitWithoutDelim | lectures/week_2/code/split.cpp:14-18 | an input without the delimiter is the single word `[s]` |
| Splitting.SplitCollapsesRun | lectures/week_2/code/split.cpp:23-35 | doubling a delimiter anywhere changes no word: a run ends at most one word |
| Splitting.SplitDelimRun | lectures/week_2/code/split.cpp:30-35 | reading a run of delimiters adds no word and leaves `isSpace` set |
| Splitting.SplitTrailingDelims | lectures/week_2/code/split.cpp:38-43 | trailing delimiters yield no trailing empty word |
| Splitting.SplitJoin | lectures/week_2/code/split.cpp:13-43 | a delimiter run followed by a delimiter-free word appends exactly that word |
| Splitting.SplitCongruence | lectures/week_2/code/split.cpp:11-36 | the words of a longer input depend on the prefix only through its words and the `isSpace` flag |
| Splitting.SplitOfJoin | lectures/week_2/code/split.cpp:5-46 | splitting undoes joining with the delimiter, for words that contain no delimiter and are non-empty after the first |
| Splitting.SplitDemo | lectures/week_2/code/split.cpp:50-52 | "Some,random,text,with,no,purpose" split on ',' gives its six words in order |
| Stripping.StripLine | lectures/week_2/code/strip.cpp:39-64 | the loop with its `isDelim` flag returns exactly `Strip(line, delim)` |
| Stripping.StripNoAdjacent | lectures/week_2/code/strip.cpp:51-60 | the result never has two adjacent delimiters |
| Stripping.StripKeepsOthers | lectures/week_2/code/strip.cpp:45-49 | with delimiters removed, the result and the input are the same: every other character is kept in order |
| Stripping.StripEnds | lectures/week_2/code/strip.cpp:43-61 | only "" strips to ""; the first character and whether the string ends in the delimiter are kept |
| Stripping.StripRun | lectures/week_2/code/strip.cpp:42-60 | a maximal delimiter run, leading or trailing too, becomes a single delimiter |
| Stripping.StripWord | lectures/week_2/code/strip.cpp:45-49 | delimiter-free text is copied unchanged |
| Stripping.StripShorter | lectures/week_2/code/strip.cpp:39-64 | the result is never longer than the input |
| Stripping.StripFixpoint | lectures/week_2/code/strip.cpp:39-64 | a string without adjacent delimiters is returned unchanged |
| Stripping.StripIdempotent | lectures/week_2/code/strip.cpp:39-64 | stripping twice is stripping once |
| Stripping.SplitOfStrip | lectures/week_2/code/strip.cpp:5-37 | `split(strip(s))` equals `split(s)`; this file's `split` is the same algorithm as split.cpp's |
| Stripping.SplitThreeWords | lectures/week_2/code/strip.cpp:5-37 | three delimiter-free words separated by two delimiter runs split into exactly those words |
| Stripping.StripDemo | lectures/week_2/code/strip.cpp:66-77 | "Yay    it's     Friday!" gives the words "Yay", "it's", "Friday!" |
| WordStats.Keys | lectures/week_3/code/struct.cpp:6-10 | the table's words, one per entry, in table order |
| WordStats.Find | lectures/week_3/code/struct.cpp:12-25 | -1 iff no entry holds the word; otherwise the smallest index whose entry holds it |
| WordStats.Update | lectures/week_3/code/struct.cpp:95-105 | a new word is appended with one occurrence; a known word's entry gains one; every other entry is unchanged |
| WordStats.TallyWords | lectures/week_3/code/struct.cpp:93-106 | the per-line loop leaves exactly `Tally(stats, words)` |
| WordStats.TallyLines | lectures/week_3/code/struct.cpp:85-107 | the line loop, which splits each line at spaces, gives the tally of all words of all lines from an empty table |
| WordStats.TallyAppend | lectures/week_3/code/struct.cpp:88-107 | tallying two runs of words is tallying the first, then the second |
| WordStats.TallyKeepsDistinct | lectures/week_3/code/struct.cpp:93-106 | the table's words stay pairwise distinct |
| WordStats.TallyOrder | lectures/week_3/code/struct.cpp:98-105 | entries are the old ones followed by the new words in first-occurrence order; existing entries never move |
| WordStats.TallyTotal | lectures/week_3/code/struct.cpp:93-106 | the occurrences add up to the old total plus the number of words processed |
| WordStats.UpdateOccurrences | lectures/week_3/code/struct.cpp:95-105 | one word adds one occurrence to that word and none to any other |
| WordStats.TallyOccurrences | lectures/week_3/code/struct.cpp:95-105 | each word's occurrences grow by the number of times it was processed |
| WordStats.CountsFromEmpty | lectures/week_3/code/struct.cpp:83-106 | from an empty table: distinct words in first-occurrence order, each entry counting its word, total equal to the number of words |
| WordStats.EmptyLineCountsEmptyWord | lectures/week_3/code/struct.cpp:91 | an empty line contributes one occurrence of the empty word |
| Search.FindElement | lectures/week_2/code/search.cpp:5-16 | true iff `elem` occurs in `vec` |
| Search.CountLessThan | lectures/week_2/code/search.cpp:18-30 | the number of positions holding a value below `elem`, between 0 and the length |
| Search.FindLessThan | lectures/week_2/code/search.cpp:32-44 | exactly `Below(vec, elem)`, the elements below `elem` in order |
| Search.BelowExactly | lectures/week_2/code/search.cpp:35-41 | every kept element is below the bound, and each such value is kept as often as it occurs |
| Search.CountIsFilterLength | lectures/week_2/code/search.cpp:18-44 | `countLessThan` equals the length of `findLessThan` |
| Search.BelowAppend | lectures/week_2/code/search.cpp:35-41 | filtering a concatenation concatenates the filters |
| Search.BelowAllOrNone | lectures/week_2/code/search.cpp:35-41 | all elements below the bound keeps everything; none below keeps nothing |
| Search.SearchDemo | lectures/week_2/code/search.cpp:46-68 | for 0..9, 6 is found, 10 is not, 7 values are below 7, and they are 0..6 |
| RepeatCheck.Repeats | lectures/week_4/code/q8.cpp:5-24 | true iff two different positions hold equal words; false for at most one word |
| RepeatCheck.RepeatCheckDemo | lectures/week_4/code/q8.cpp:26-34 | text1 gives false ("Some" is not "some") and text2 gives true |
| RepeatedWords.Find | lectures/week_4/code/q9.cpp:5-16 | true iff the word is in `words` |
| RepeatedWords.Repeats | lectures/week_4/code/q9.cpp:18-42 | the nested loops return exactly `RepeatsUpTo(words, |words|)` |
| RepeatedWords.RepeatsDistinct | lectures/week_4/code/q9.cpp:32-36 | the result has no duplicates |
| RepeatedWords.RepeatsMember | lectures/week_4/code/q9.cpp:21-39 | after `n` rounds a word is reported iff one of the first `n` positions holds it and another position holds it as well |
| RepeatedWords.RepeatsExactly | lectures/week_4/code/q9.cpp:21-39 | a word is in the result iff it occurs at two different positions |
| RepeatedWords.RepeatsOrdered | lectures/week_4/code/q9.cpp:21-36 | the result is ordered by first occurrence in the input |
| RepeatedWords.RepeatedWordsDemo | lectures/week_4/code/q9.cpp:60-71 | text1 gives [] and text2 gives ["some"] |
| Machine.ToSize | lectures/week_4/code/q5.cpp:6-9 | an `int` passed as `std::size_t`: non-negative values are kept and negative ones wrap to at least 2^63 |
| Substrings.Substr | lectures/week_4/code/q5.cpp:8 | `std::string::substr`: out_of_range iff `pos` is past the end; otherwise the slice at `pos` of length `min(count, |str| - pos)` |
| Substrings.Substring1 | lectures/week_4/code/q5.cpp:6-9 | throws iff `start` is negative or past the end; takes at most `end` characters when `end >= 0`, the rest of the string when fewer remain, and the rest when a negative `end` wraps to a huge count |
| Substrings.Substring2 | lectures/week_4/code/q5.cpp:11-20 | equals `Inclusive`: "" when `end < start`, out_of_range when an index of start..end is outside the string, else the inclusive slice of length end-start+1 |
| Substrings.SubstringsAgree | lectures/week_4/code/q5.cpp:6-20 | on an in-range call the two agree iff `end` read as a count gives the inclusive length |
| Substrings.SubstringsAgreeFromOne | lectures/week_4/code/q5.cpp:26-29 | the two agree whenever `start` is 1, as in main |
| Substrings.Substring1Overshoots | lectures/week_4/code/q5.cpp:8 | ("abcdef", 2, 3): `substring1` gives "cde" where the inclusive range is "cd" |
| Substrings.Substring1Inclusive | lectures/week_4/code/q5.cpp:6-9 | `substr(start, end - start + 1)` agrees with `Inclusive` on every in-range call |
| Substrings.SubstringDemo | lectures/week_4/code/q5.cpp:22-32 | both versions give "upercalifr" for (1, 10) |
| Fill.RangeShape | lectures/week_4/code/q7.cpp:6-9 | the range a..b has b-a+1 elements when a <= b, none otherwise, the j-th being a+j |
| Fill.RangeSplit | lectures/week_4/code/q7.cpp:6-9 | consecutive ranges join into one |
| Fill.FillRange | lectures/week_4/code/q7.cpp:4-10 | appends `Range(a, b)`: the old prefix is kept, b-a+1 elements are added when a <= b and none otherwise, the j-th added one is a+j |
| Fill.FillDemo | lectures/week_4/code/q7.cpp:21-27 | `fill(empty, 0, 10)` gives 0..10 |
| TimeFormat.SplitTime | lectures/week_4/code/q6.cpp:20-40 | `hrs` is everything before the first ':'; `mins` is every non-':' character after it |
| TimeFormat.SplitTimeHalves | lectures/week_4/code/q6.cpp:24-40 | `hrs ++ mins` is the input without its colons, and neither half holds a colon |
| TimeFormat.HalvesOf | lectures/week_4/code/q6.cpp:24-40 | colon-free `hh` and `mm` joined by one ':' split back into `hh` and `mm` |
| TimeFormat.DecimalValueBound | lectures/week_4/code/q6.cpp:44-45 | a decimal string of `n` digits reads below 10^n |
| TimeFormat.ToTwelveHour | lectures/week_4/code/q6.cpp:46-56 | minutes kept; am iff h < 12; am keeps h, pm gives h-12; 0..23 maps into 0..11; the 24-hour reading comes back |
| TimeFormat.NoonReading | lectures/week_4/code/q6.cpp:49-56 | 12:30 comes out as 0:30 pm |
| TimeFormat.ToClockFace | lectures/week_4/code/q6.cpp:49-56 | hours 0..23 map into 1..12 with am iff h < 12, and `FromClockFace` recovers h |
| TimeFormat.TellTime | lectures/week_4/code/q6.cpp:14-56 | all of main for decimal halves: minutes are the value of the minutes half, the 24-hour reading is the value of the hours half, am iff it is below 12 |
| TimeFormat.TwoDigits | lectures/week_4/code/q6.cpp:44-45 | two decimal digits read as tens and units |
| TimeFormat.TellTimeOf | lectures/week_4/code/q6.cpp:14-56 | "HH:MM" with two-digit halves reads as its digit values |
| TimeFormat.TellTimeDemo | lectures/week_4/code/q6.cpp:14-67 | "13:45" gives 1:45 pm and "09:05" gives 9:05 am |
| Ascii.ToLower | lectures/week_4/code/q2.cpp:16-19 | `std::tolower`: an upper-case letter becomes its lower-case letter, anything else is unchanged, and no upper-case letter results |
| Ascii.ToUpper | lectures/week_4/code/q2.cpp:20-23 | `std::toupper`: a lower-case letter becomes its upper-case letter, anything else is unchanged |
| Ascii.InvertCase | lectures/week_4/code/q2.cpp:16-23 | upper becomes lower and lower becomes upper, both ways round; non-letters are unchanged |
| InvertCaps.InvertWord | lectures/week_4/code/q2.cpp:11-24 | same length, each character case-inverted |
| InvertCaps.InvertAll | lectures/week_4/code/q2.cpp:9-25 | same number of words, each inverted |
| InvertCaps.InvertCapsInPlace | lectures/week_4/code/q2.cpp:6-26 | the array of words is rewritten in place into `InvertAll` of its old contents |
| InvertCaps.InvertShape | lectures/week_4/code/q2.cpp:9-24 | word count and lengths are kept; upper becomes `tolower`, lower becomes `toupper`, other characters stay |
| InvertCaps.InvertWordInvolution | lectures/week_4/code/q2.cpp:11-24 | inverting a word twice restores it |
| InvertCaps.CharInvolution | lectures/week_4/code/q2.cpp:16-23 | inverting a character twice restores it |
| InvertCaps.InvertAllInvolution | lectures/week_4/code/q2.cpp:6-26 | applying `invertCaps` twice restores the vector |
| InvertCaps.InvertCapsDemo | lectures/week_4/code/q2.cpp:37-44 | {"HeLlO","wOrLd","AgAiN"} becomes {"hElLo","WoRlD","aGaIn"} |
| MergeStrings.Lower | ice/code/ice02.cpp:21-24 | same length, each character `tolower` of the original |
| MergeStrings.Merge | ice/code/ice02.cpp:13-27 | result is `tolower` of the concatenation, its length is the sum of the word lengths, and it holds no upper-case letter |
| MergeStrings.MergeAgainIsNoOp | ice/code/ice02.cpp:21-24 | merging the merged string alone changes nothing |
| MergeStrings.MergeDemo | ice/code/ice02.cpp:29-35 | {"Hello","World","again!"} gives "helloworldagain!", and no words give "" |
| SumLess.SumBelowSnoc | ice/code/ice10.cpp:30 | one more element adds itself exactly when it is below the bound |
| SumLess.SumLessThan | ice/code/ice10.cpp:27-32 | the sum of the elements strictly below `n` |
| SumLess.SumLessThanR | ice/code/ice10.cpp:35-50 | the recursive version gives the same sum for every input, 0 for the empty vector |
| SumLess.SumLessAllAbove | ice/code/ice10.cpp:43-46 | a vector whose elements are all at least `n` sums to 0 |
| SumLess.SumLessIgnoresLarge | ice/code/ice10.cpp:30 | an element at or above the bound contributes nothing |
| SumLess.SumLessDemo | ice/code/ice10.cpp:52-63 | `data1` gives 0 and 1..10 below 10 gives 45 |
| Exceptions.MaxElement | lectures/week_3/code/exception.cpp:13-19 | an element of the vector that no element exceeds |
| Exceptions.MaxVal | lectures/week_3/code/exception.cpp:5-22 | invalid_argument with its message iff the vector is empty; otherwise at least every element, equal to max(largest element, -1000), and an element when some element is at least -1000 |
| Exceptions.MaxValBelowSentinel | lectures/week_3/code/exception.cpp:12 | {-2000} gives -1000, which is not in the vector |
| Exceptions.MaxValFromFirst | lectures/week_3/code/exception.cpp:5-22 | started from the first element, `maxVal` throws iff empty and otherwise returns the largest element, which is in the vector |
| Exceptions.Foo | lectures/week_3/code/exception.cpp:24-27 | always throws runtime_error("Error 1") |
| Exceptions.Bar | lectures/week_3/code/exception.cpp:29-44 | prints "Error 1" once, having swallowed `foo`'s error, and throws runtime_error("Error 2") iff `a == 2` |
| Exceptions.Baz | lectures/week_3/code/exception.cpp:46-52 | runs `bar(0)`, `bar(1)`, `bar(2)` only, prints "Error 1" three times and leaves with runtime_error("Error 2") |
| Exceptions.ExceptionsDemo | lectures/week_3/code/exception.cpp:54-66 | main prints "Error 1" three times, then the caught "Error 2" |
| SetEquality.SubsetSameSize | ice/code/ice04.cpp:10-21 | a subset as large as its superset is equal to it |
| SetEquality.Equal | ice/code/ice04.cpp:8-24 | true iff the sets are equal; false when the sizes differ |
| SetEquality.Equal2 | ice/code/ice04.cpp:27-30 | true iff each set is contained in the other |
| SetEquality.EqualLaws | ice/code/ice04.cpp:8-30 | a client of `equal`'s contract: for any sets, calling `equal` gives reflexivity, symmetry and agreement with `equal2` |
| SetEquality.SetEqualDemo | ice/code/ice04.cpp:32-39 | {1,2,3,4,5} and {2,3,1,5,4} are equal |
| Folds.FoldLeftAppend | lectures/week_12/code/problems.cpp:18-21 | folding a concatenation folds the second part from the first part's result |
| Folds.FoldLeftCons | lectures/week_12/code/problems.cpp:17-21 | the first element is combined with `init` first |
| Folds.Accumulate | lectures/week_12/code/problems.cpp:14-24 | the left fold of `f` from `init` in element order; `init` for empty data |
| Folds.AccumulateFromZero | lectures/week_12/code/problems.cpp:26-48 | `accumulate2` and `accumulate3` are the left fold from 0; 0 for empty data |
| Folds.Abs | lectures/week_12/code/problems.cpp:50-59 | non-negative, -x for negative x and x otherwise |
| Folds.FoldsDemo | lectures/week_12/code/problems.cpp:61-67 | summing {1,2,3,4} gives 10 |
| Chain.Node.constructor | lectures/week_12/code/list.hpp:57-60 | the node holds the value and has no successor |
| Chain.ChainTail | lectures/week_12/code/list.hpp:36-39 | after the first node, the rest is again a chain |
| Chain.ChainOnlyLastEnds | lectures/week_12/code/list.hpp:36-39 | only the last node of a chain has a null `next` |
| Chain.ChainPrepend | lectures/week_12/code/list.hpp:20-25 | a fresh node pointing at the head extends the chain by its value at the front |
| Chain.ChainUnlinked | ice/code/ice11.cpp:53-54 | redirecting the predecessor's `next` past node i leaves a chain of the other nodes, in order |
| LinkedList.List.constructor | lectures/week_12/code/list.hpp:8-10 | a default list is empty |
| LinkedList.List.FromList | lectures/week_12/code/list.hpp:12-18 | the list holds the initializer's elements in reverse |
| LinkedList.List.PushFront | lectures/week_12/code/list.hpp:20-25 | the value becomes the first element and the rest is intact |
| LinkedList.List.PopBack | lectures/week_12/code/list.hpp:27-43 | on a non-empty list, returns the last element and removes only it |
| LinkedList.List.Empty | lectures/week_12/code/list.hpp:45-48 | true iff the list holds nothing |
| LinkedList.ListDemo | lectures/week_12/code/list.hpp:8-48 | a constructed scenario over the class's members (list.hpp has no `main`): a default list is empty; {1,2,3} pops 1; a one-element list popped is empty |
| Queues.Queue.constructor | lectures/week_12/code/queue.cpp:8-9 | a default queue is empty |
| Queues.Queue.FromList | lectures/week_12/code/queue.cpp:11-13 | the queue holds the initializer's elements with the first next to pop |
| Queues.Queue.Push | lectures/week_12/code/queue.cpp:15-18 | the value joins the back |
| Queues.Queue.Pop | lectures/week_12/code/queue.cpp:20-23 | on a non-empty queue, returns the oldest value and removes it (FIFO) |
| Queues.Queue.Empty | lectures/week_12/code/queue.cpp:25-28 | true iff the queue, and so its list, is empty |
| Queues.QueueDemo | lectures/week_12/code/queue.cpp:34-44 | {1,10,100,1000} pops 1, 10, 100, 1000 |
| Queues.PushPopDemo | lectures/week_12/code/queue.cpp:15-28 | push then pop on an empty queue returns the value and leaves it empty |
| IndexRemoval.List.PushFront | ice/code/ice11.cpp:16-21 | the value is prepended and the rest is intact |
| IndexRemoval.List.constructor | ice/code/ice11.cpp:12-14 | a new list is empty |
| IndexRemoval.WalkTo | ice/code/ice11.cpp:45-51 | for 1 <= i < length, the walk stops at the node at index i-1 |
| IndexRemoval.RemoveIndex | ice/code/ice11.cpp:42-56 | for 1 <= i < length, unlinks exactly the node at index i, keeps the others in order, and returns the data at index i-1 |
| IndexRemoval.RemoveAt | ice/code/ice11.cpp:53-55 | the same unlinking, returning the removed value |
| IndexRemoval.PrintList | ice/code/ice11.cpp:58-68 | the data from the head to the end |
| IndexRemoval.RemoveIndexDemo | ice/code/ice11.cpp:70-84 | on 1 2 3, `removeIndex(1)` leaves 1 3 and returns 1 |
| IndexRemoval.RemoveAtDemo | ice/code/ice11.cpp:70-84 | the corrected removal on 1 2 3 leaves 1 3 and returns 2 |
| Traversal.List.Insert | lectures/week_11/code/recursion.cpp:22-34 | both branches prepend the value |
| Traversal.List.constructor | lectures/week_11/code/recursion.cpp:18-20 | a default list, with a null head, is empty |
| Traversal.PrintForwards | lectures/week_11/code/recursion.cpp:37-50 | the data head to tail, and nothing for an empty list |
| Traversal.PrintRecurse | lectures/week_11/code/recursion.cpp:52-61 | the chain from `p` printed in reverse |
| Traversal.PrintBackwards | lectures/week_11/code/recursion.cpp:63-66 | the list's data in reverse |
| Traversal.BackwardsIsReversedForwards | lectures/week_11/code/recursion.cpp:37-66 | the backward print is the forward one read from the end, and reversing it gives the forward one back |
| Traversal.TraversalDemo | lectures/week_11/code/recursion.cpp:68-80 | inserting 4,3,2,1 prints 1 2 3 4 forwards and 4 3 2 1 backwards |
| Miscellany.ConcatWords | lectures/week_11/code/miscellany.cpp:35-49 | "" for an empty vector, else the words concatenated in order; the length is the sum of the word lengths |
| Miscellany.Widget.constructor | lectures/week_11/code/miscellany.cpp:12-14 | `mNum` starts at 0 |
| Miscellany.Widget.DoSomething | lectures/week_11/code/miscellany.cpp:16-24 | `mNum` grows by exactly 1 |
| Miscellany.MiscellanyDemo | lectures/week_11/code/miscellany.cpp:30-61 | {"h","e","l","l","o"} gives "hello", and a widget holds 1 after one call |
| References.Swap | lectures/week_1/code/references.cpp:3-8 | each reference receives the other's value |
| References.SwapDemo | lectures/week_1/code/references.cpp:15-22 | x = 0, y = 1 become 1, 0; swapping twice restores; swapping a value with itself keeps it |
| Tracing.Why | lectures/week_2/code/tracing.cpp:3-6 | four times `a`, a multiple of 4 |
| Tracing.Madness | lectures/week_2/code/tracing.cpp:8-14 | `num1` becomes 5·num1 + 4·num2; the copy `num2` does not reach the caller |
| Tracing.TracingDemo | lectures/week_2/code/tracing.cpp:16-26 | x = 10, y = 16 become x = 114, y = 16 |
| Parameters.Madness | ice/code/ice03.cpp:7-15 | `a` is unchanged; `b` grows by 6 iff it exceeds 10; prints `a` and the new `b` |
| Parameters.Into | ice/code/ice03.cpp:17-24 | `y` ends as x+16 when x > 0 and x+10 otherwise; prints "x+10 x+10" then "x+10 y" |
| Parameters.Descend | ice/code/ice03.cpp:26-31 | `a` is unchanged; returns the final `b`; prints the two lines of `into` and then `a b` |
| Parameters.ParametersDemo | ice/code/ice03.cpp:33-42 | prints 147 147, 147 153, 137 153, 153, 137 401 and ends with x = 153, y = 137, z = 401 |
| Logging.MapInsert | lectures/week_10/code/logger.cpp:34 | `std::map::insert`: the key is bound afterwards, an existing binding is kept, a new key gets the value, and no other binding changes |
| Logging.MapInsertFirstWins | lectures/week_10/code/logger.cpp:34 | inserting under a bound key a second time changes nothing |
| Logging.Sink.Print | lectures/week_10/code/sink.hpp:12 | the sink receives the message once more |
| Logging.Sink.constructor | lectures/week_10/code/sink.hpp:9 | a new sink has received nothing |
| Logging.LoggerImpl.constructor | lectures/week_10/code/logger.cpp:5-10 | the sink map starts empty |
| Logging.Logger.constructor | lectures/week_10/code/logger.cpp:12-14 | a new logger has no sinks |
| Logging.Logger.Print | lectures/week_10/code/logger.cpp:22-30 | the mapping is unchanged; the sink bound to `stream` gets the message once; every other sink is unchanged; an unbound name does nothing |
| Logging.Logger.AddSink | lectures/week_10/code/logger.cpp:32-35 | the map becomes `MapInsert` of the old map, so a bound name keeps its first sink |
| Logging.Process.GetInstance | lectures/week_10/code/logger.cpp:16-20 | the first call constructs a logger with no sinks, and every call returns that same logger |
| Logging.Process.constructor | lectures/week_10/code/logger.cpp:18 | before the first `getInstance` call no logger exists |
| Logging.LoggerDemo | lectures/week_10/code/main.cpp:3-17 | the "cout" sink receives exactly "Hello World" then "Foo message" |
| Logging.FirstBindingDemo | lectures/week_10/code/logger.cpp:32-35 | a second sink under a bound name receives nothing; printing to an unbound name reaches no sink |
| Logging.RoutingDemo | lectures/week_10/code/logger.cpp:22-30 | each stream's messages reach only its own sink, in order |

## Left out

- Console input and output are not modelled as I/O.
  - What is printed is returned as a sequence.
  - `std::cin` in q6.cpp is the method's parameter.
  - struct.cpp's file reading becomes the sequence of lines.
  - `printStats` is not modelled.
  - The `print` helpers of q2.cpp, q7.cpp and q9.cpp are not modelled.
- `StreamSink` in streamsink.hpp writes to `std::cout`. It is not modelled; a recording `Sink` stands in for every sink.
- Concurrency is not modelled: `getInstance` and the logger are used single-threaded and the code has no locking. Destruction order of the static is not modelled either.
- Strings: a C++ `std::string` is a sequence of bytes, and a Dafny `string` a sequence of Unicode characters. Each Dafny `char` stands for one byte, so lengths, indices, `substr`, `at` and `size()` agree with the source only on single-byte (ASCII) text.
- Logging.Logger.constructor: in logger.hpp the constructor is private and copying is deleted, so only `getInstance` creates a logger. Dafny cannot hide the constructor without export sets, so any caller of the model can build a `Logger`; only `Logging.Process.GetInstance` models the single instance, and every demo obtains its logger from it.
- Memory management is not modelled: `std::shared_ptr` and `std::unique_ptr` ownership and the release of unlinked nodes. An unlinked node simply stays allocated.
- The floating-point call `abs(3.0f)` in problems.cpp is not modelled, and the `enable_if` template header is shown only for `int`.
- WordStats.Update: `occurrences` in struct.cpp is an `int`. The model counts with unbounded integers, so overflow after 2^31 words is not modelled.
- Search.CountLessThan: `count` is an unbounded integer; the source's `int` could overflow only for vectors longer than 2^31.
- SumLess.SumLessThan: the elements and the sum are unbounded integers, so `int` overflow of a large sum is not modelled.
- SumLess.SumLessThanR: the same as SumLessThan. The by-value parameter needs no statement, because Dafny sequences are values and the caller's vector cannot change.
- Folds.AccumulateFromZero: the elements and the accumulated value are unbounded integers, so `int` overflow of the summing lambda in problems.cpp is not modelled.
- Folds.Accumulate: `f` is any total function. It is not modelled as a C++ callable that could throw or have side effects.
- TimeFormat.TellTime: `std::stoi` is modelled only on plain decimal digit strings whose value fits an `int`.
  - Its whitespace skipping, sign and trailing-garbage handling are not modelled.
  - So is the `invalid_argument`/`out_of_range` it throws on other input, which main does not catch.
  - The precondition states this restriction.
- Fill.FillRange: `b` must be below the largest `int` when `a <= b`. With `b == INT_MAX`, `++i` overflows, which is undefined behaviour.
- Substrings.Substring2: `++i` overflows if `end` is the largest `int`. Every such call already throws at `str.at(i)` beforehand unless the string is longer than 2^31, so strings that long are not modelled.
- Substrings.Substr and Substrings.Substring1: the `what()` text of `std::out_of_range` is implementation-defined and is not modelled; `Exception.OutOfRange` carries no message.
- SetEquality.Equal: the loop visits the elements of `s1` in an unspecified order. `std::set` visits them in increasing order, which does not affect the result.
- IndexRemoval.RemoveIndex: `i == 0`, and `i` at or past the length, dereference a null `pop`, which is undefined behaviour. The same happens on an empty list, where `it` itself is null. The precondition excludes all of these.
- LinkedList.List.PopBack and Queues.Queue.Pop: an empty list dereferences a null head. These calls are excluded by precondition.
- Miscellany.Widget.DoSomething: the lambda capturing `this` is inlined as a direct update of `mNum`.
- Tracing.Madness, Parameters.Into and Parameters.Descend: `int` overflow is excluded by precondition rather than modelled.

## Findings

| source | as written | input that shows it | evidently intended | confidence | as-written member | corrected member |
|---|---|---|---|---|---|---|
| lectures/week_4/code/q5.cpp:8 | `str.substr(start, end)` reads `end` as a character count | `substring1("abcdef", 2, 3)` gives "cde" | the inclusive range start..end, as `substring2` builds it: "cd" | high, not executed | Substrings.Substring1Overshoots | Substrings.Substring1Inclusive |
| lectures/week_4/code/q6.cpp:49-56 | hours 12..23 lose 12 and hours 0..11 are kept | "12:30" gives 0:30 pm, and "00:30" gives 0:30 am | a 12-hour clock face shows 12:30 pm and 12:30 am | medium, not executed | TimeFormat.NoonReading | TimeFormat.ToClockFace |
| lectures/week_3/code/exception.cpp:12 | `max` starts at -1000 | `maxVal({-2000})` gives -1000, not an element | the largest element of the vector | high, not executed | Exceptions.MaxValBelowSentinel | Exceptions.MaxValFromFirst |
| ice/code/ice11.cpp:55 | `removeIndex` returns `it->data`, the predecessor's value | on 1 2 3, `removeIndex(1)` removes 2 but returns 1 | the removed value, `pop->data` | medium, not executed | IndexRemoval.RemoveIndexDemo | IndexRemoval.RemoveAt |
