# anagramizer, modelled in Dafny

anagramizer is a command-line anagram solver written in Go. Given a set of
letters, it tests every word of a word list against them and prints the words
that use exactly those letters (or, with `-sub`, some of them), optionally
sorted by length and limited in number. This project models its two
sequential cores and proves their behaviour.

- `anagramizer.dfy`, module `Anagramizer`: `TestAnagram`, the letter-bag
  matcher, and the part of `main` that collects the accepted words, sorts
  them when asked and prints at most `count` of them. The flags `-min`,
  `-max`, `-sub`, `-s`, `-r` and `-c` are parameters instead of globals. The
  channel send becomes the result `accepted`. The global `solutions` counter
  is passed in and out as a 64-bit unsigned value that wraps like Go's
  `uint` on a 64-bit platform.
- `wordsorter.dfy`, module `WordSort`: the `WordSorter` collector as a class.
  The field `words` is the backing array (its length is the slice's
  capacity), `count` is the slice's length, and the ghost field `Contents` is
  the list of collected words. `sort.Sort` is replaced by an insertion sort
  written over `Less` and `Swap`.

The letter walk of `TestAnagram` is given twice: as the method `TestAnagram`,
with the source's loop, and as the recursive functions `Consume` and
`Accepts`. The method is proved equal to the function. The function is proved
equivalent to a reference definition on multisets: `LettersMatch` and
`PassesSizeFilters`.

Strings are `seq<char>` with one character per byte. The source measures
lengths in bytes (`len`) and walks runes (`range`); the two agree on ASCII
text, which the model assumes.

`TestAnagram` compares characters exactly and nothing lowercases either
side, so the model does no case folding.

## Model

| member | source | states |
|---|---|---|
| Anagramizer.Inc | anagramizer.go:71-75 | definition of `solutions++` on a 64-bit `uint`: the successor, except that the largest value wraps to 0 |
| Anagramizer.RemoveFirst | anagramizer.go:64-65 | `strings.Replace(w, c, "", 1)`: with `c` present, exactly one occurrence is removed (length down by one, multiset minus `{c}`), and it is the leftmost one; without `c` the string is unchanged |
| Anagramizer.Consume | anagramizer.go:63-69 | definition of the letter walk: each candidate letter, in order, removes its leftmost occurrence from the bag; the first letter the bag lacks gives `None`, otherwise the rest of the bag is returned; a completed walk leaves as many letters as the bag had minus the candidate's length |
| Anagramizer.ConsumeMultiset | anagramizer.go:63-69 | the letter walk completes iff the candidate's multiset is a sub-multiset of the input's, and what it leaves is the input's multiset minus the candidate's |
| Anagramizer.ConsumeAppend | anagramizer.go:63-69 | walking `p + q` is walking `p` and then, if that completed, walking `q` over what it left |
| Anagramizer.MissingLetterStops | anagramizer.go:63-68 | once a letter is absent from what remains of the bag, the walk fails whatever letters follow |
| Anagramizer.MissingLetterRejects | anagramizer.go:63-68 | a candidate whose next letter is missing from the remaining input is rejected, in every mode and under every size filter, whatever its later letters are |
| Anagramizer.Accepts | anagramizer.go:56-79 | definition of `TestAnagram`'s verdict: reject below `minSize`, reject above a positive `maxSize`, reject when the walk fails, then accept in `sub` mode or when the walk used up the input; an accepted candidate always passes both length filters |
| Anagramizer.AcceptsIff | anagramizer.go:56-79 | a candidate is accepted iff it passes both length filters and its multiset equals the input's (with `sub`: is a sub-multiset of it); both directions |
| Anagramizer.SizeFilterBoundaries | anagramizer.go:57-62 | length `minSize` passes the minimum filter and `minSize - 1` does not; with `maxSize > 0`, length `maxSize` passes and `maxSize + 1` does not; `maxSize <= 0` sets no upper bound |
| Anagramizer.LettersNotReused | anagramizer.go:63-69 | each input occurrence is consumed at most once: input "aab" never accepts "aaa", in either mode and under every size filter |
| Anagramizer.TestAnagram | anagramizer.go:56-79 | the loop accepts exactly when `Accepts` does, i.e. size filters passed and the multiset condition of the mode holds; the counter rises by one (wrapping at 2^64) on acceptance and is unchanged on rejection |
| Anagramizer.Solutions | anagramizer.go:111-124 | definition of the collected words: the accepted words of the list, in list order, so never more than the list holds |
| Anagramizer.SolutionsMembers | anagramizer.go:103-124 | the collected words are exactly the words of the list that `TestAnagram` accepts |
| Anagramizer.SolutionsExtend | anagramizer.go:111-124 | testing one more word of the list appends it to the solutions exactly when it is accepted |
| Anagramizer.CounterStep | anagramizer.go:71-75 | if the counter equals the number of collected words modulo 2^64 before a test, it still does after it, whether the word was accepted or not |
| Anagramizer.CollectOne | anagramizer.go:111-123 | one goroutine and its share of the drain loop: the collector gains the candidate at its end exactly when it is accepted, stays valid and keeps its direction, and the counter stays equal to the number of collected words modulo 2^64 |
| Anagramizer.CollectSolutions | anagramizer.go:103-124 | running `TestAnagram` over the list and appending each accepted word gives a fresh collector, unreversed, holding the accepted words, with `solutions` equal to their number modulo 2^64 |
| Anagramizer.Emit | anagramizer.go:141-146 | the printed words are the first `count` collected words in order when `0 < count` and more than `count` words are collected, otherwise all of them |
| Anagramizer.Anagramize | anagramizer.go:121-146 | the collector's final contents (the ghost result `ordered`) are a permutation of the solutions; unsorted they are the solutions in list order, sorted their neighbours are in length order in the chosen direction; the printed words are the first `count` of them when `0 < count` and more than `count` solutions exist, otherwise all of them; so each printed word is an accepted word of the list, and with no count limit the printed words are a permutation of the solutions |
| Anagramizer.PrefixKeeps | anagramizer.go:141-146 | a printed prefix of the contents draws its words from them, is all of them when it has their length, and stays in length order when they are |
| Anagramizer.SolutionsCover | anagramizer.go:121-146 | any words drawn from the solutions, with multiplicity, are accepted words of the list |
| WordSort.SortedIffAdjacent | wordsorter.go:68-73 | under the order that `Less` induces, "every earlier word may precede every later word" and "every word may precede its neighbour" are the same |
| WordSort.WordSorter.constructor | wordsorter.go:41-46 | the zero value that `new(WordSorter)` gives: empty, unreversed, zero capacity |
| WordSort.WordSorter.Init | wordsorter.go:48-54 | after `Init`: `count == 0`, `reverse` false, contents empty, a fresh zero-capacity store |
| WordSort.WordSorter.Len | wordsorter.go:56-58 | returns the number of collected words |
| WordSort.WordSorter.Swap | wordsorter.go:60-66 | exchanges words `i` and `j`; every other word, `count`, `reverse` and the store are unchanged; the multiset of contents is preserved |
| WordSort.WordSorter.Less | wordsorter.go:68-73 | word `i` must come strictly before word `j`: shorter, or longer when `reverse` is set; exactly the negation of the sort order with the operands exchanged |
| WordSort.WordSorter.Append | wordsorter.go:75-88 | contents become old contents plus the new word at index old `count`, so every earlier word keeps its index; `count` rises by one and stays within the capacity; when the capacity is used up the store is a fresh one of capacity `(count + 1) * 2`, otherwise the same store |
| WordSort.WordSorter.Words | wordsorter.go:90-92 | returns the collected words |
| WordSort.WordSorter.Word | wordsorter.go:94-96 | returns collected word `i` |
| WordSort.WordSorter.SinkLast | wordsorter.go:102 | one insertion step over `Less` and `Swap`: with the first `i` words in order, the first `i + 1` words end in order, as a permutation, with `count` and `reverse` unchanged |
| WordSort.WordSorter.SortByLess | wordsorter.go:102 | the stand-in for `sort.Sort(w)`: afterwards every earlier word may precede every later one in the current direction, and the contents are a permutation of the previous ones |
| WordSort.WordSorter.Sort | wordsorter.go:98-103 | afterwards `reverse` is false, neighbouring words are non-decreasing in length, the contents are a permutation of the previous ones and `count` is unchanged |
| WordSort.WordSorter.SortReversed | wordsorter.go:105-110 | afterwards `reverse` is true, neighbouring words are non-increasing in length, the contents are a permutation of the previous ones and `count` is unchanged |

## Left out

- Concurrency: the goroutine per word-list line, the unbuffered channel and the drain loop (anagramizer.go:97, 111, 121-124) are modelled as one sequential pass. `CollectSolutions` tests the words in list order and appends each accepted word at once, so the collected order is list order. The source's order depends on scheduling.
- The unsynchronised `solutions++` race, and the assumption that all goroutines have run before `main` reads the counter, are not modelled.
- CollectSolutions: appends every accepted word. The source drains only `solutions` values, which is their number only below 2^64.
- The `sync.Mutex` in `WordSorter` and every lock and unlock call: the model is sequential, so they are no-ops.
- Flag parsing, the usage message, opening and reading the word-list file, `panic` on read errors, the `Status` progress messages and `fmt.Printf`: these are I/O. The word list is a parameter, and the printed lines are the result of `Emit`. `Status` is not part of this model.
- The algorithm inside Go's `sort.Sort` is a library call; an insertion sort over `Less` and `Swap` stands in for it. Only sortedness by length and permutation are claimed. No order among words of equal length is claimed, because the source defines no tie-break.
- WordSort.WordSorter.Words: returns the contents as a value. The Go slice shares the backing array with the collector, and that aliasing is not modelled.
- Bytes and runes: one character is one byte (ASCII). Multi-byte UTF-8 text, where `len` and `range` disagree, is not modelled.
- Case normalisation: the code does none, and the model adds none.
- Hint and pattern matching and the HTTP handlers are not part of this model.
