/** The anagram matcher of anagramizer (anagramizer.go): TestAnagram decides
    whether one dictionary word is an anagram, or a sub-anagram, of the input
    letters; main collects the accepted words, optionally sorts them by length
    and prints at most `count` of them.

    Strings are sequences of characters, one character per byte: the source
    measures lengths in bytes and walks runes, which agree on ASCII text. */
module Anagramizer {
  import opened WordSort

  datatype Option<T> = None | Some(value: T)

  /** Go's `uint` on a 64-bit platform; `solutions++` wraps at this bound. */
  const UINT_LIMIT: int := 0x1_0000_0000_0000_0000
  type Uint = x: int | 0 <= x < UINT_LIMIT

  function Inc(s: Uint): (next: Uint)
    ensures next == if s < UINT_LIMIT - 1 then s + 1 else 0
  {
    (s + 1) % UINT_LIMIT
  }

  // ---------------------------------------------------------------------------
  // The letter bag

  /** The position of the leftmost occurrence of `c` in `s`. */
  function IndexOf(s: string, c: char): (i: nat)
    requires c in s
    ensures i < |s| && s[i] == c && c !in s[..i]
  {
    if s[0] == c then 0
    else
      var i := 1 + IndexOf(s[1..], c);
      assert s[..i] == [s[0]] + s[1..][..i - 1];
      i
  }

  /** strings.Replace(s, string(c), "", 1): the leftmost occurrence of `c`
      is cut out, and `s` is returned as it is when it holds no `c`. */
  function RemoveFirst(s: string, c: char): (r: string)
    ensures c !in s ==> r == s
    ensures c in s ==> |r| == |s| - 1 && multiset(r) == multiset(s) - multiset{c}
    ensures c in s ==> r[..IndexOf(s, c)] == s[..IndexOf(s, c)]
                       && r[IndexOf(s, c)..] == s[IndexOf(s, c) + 1..]
  {
    if c in s then
      var i := IndexOf(s, c);
      assert s == s[..i] + [s[i]] + s[i + 1..];
      s[..i] + s[i + 1..]
    else
      s
  }

  /** The walk of TestAnagram over the candidate: each letter, in order, takes
      one occurrence out of the bag.  The first letter the bag no longer holds
      gives None; otherwise the result is what is left of the bag. */
  function Consume(bag: string, cand: string): (left: Option<string>)
    ensures left.Some? ==> |left.value| + |cand| == |bag|
    decreases |cand|
  {
    if cand == [] then Some(bag)
    else if cand[0] in bag then Consume(RemoveFirst(bag, cand[0]), cand[1..])
    else None
  }

  /** The walk succeeds exactly when the candidate's letters, counted with
      multiplicity, are among the bag's, and it leaves the bag minus those
      letters. */
  lemma {:induction false} ConsumeMultiset(bag: string, cand: string)
    ensures Consume(bag, cand).Some? <==> multiset(cand) <= multiset(bag)
    ensures Consume(bag, cand).Some? ==>
              multiset(Consume(bag, cand).value) == multiset(bag) - multiset(cand)
    decreases |cand|
  {
    if cand != [] {
      var c, rest := cand[0], cand[1..];
      assert cand == [c] + rest;
      assert multiset(cand) == multiset{c} + multiset(rest);
      if c in bag {
        var bag' := RemoveFirst(bag, c);
        ConsumeMultiset(bag', rest);
        assert multiset(bag) == multiset(bag') + multiset{c} by {
          assert c in multiset(bag);
        }
      } else {
        assert c !in multiset(bag);
        assert c in multiset(cand);
      }
    }
  }

  /** Walking a candidate in two pieces is walking the first piece and then
      the second over what the first left; a failure in the first piece ends
      the walk. */
  lemma {:induction false} ConsumeAppend(bag: string, p: string, q: string)
    ensures Consume(bag, p + q) == match Consume(bag, p)
                                   case None => None
                                   case Some(left) => Consume(left, q)
    decreases |p|
  {
    if p == [] {
      assert p + q == q;
    } else {
      var pq := p + q;
      assert pq[0] == p[0] && pq[1..] == p[1..] + q;
      if p[0] in bag {
        ConsumeAppend(RemoveFirst(bag, p[0]), p[1..], q);
      }
    }
  }

  /** Once a letter is missing from what is left of the bag, the walk fails,
      whatever follows that letter. */
  lemma MissingLetterStops(bag: string, prefix: string, c: char, suffix: string)
    requires Consume(bag, prefix).Some? && c !in Consume(bag, prefix).value
    ensures Consume(bag, prefix + [c] + suffix) == None
  {
    ConsumeAppend(bag, prefix, [c]);
    ConsumeAppend(bag, prefix + [c], suffix);
  }

  // ---------------------------------------------------------------------------
  // TestAnagram

  /** The two length filters at the head of TestAnagram: at least `minSize`
      letters, and at most `maxSize` when `maxSize` is positive. */
  predicate PassesSizeFilters(n: int, minSize: int, maxSize: int)
  {
    !(n < minSize) && !(n > maxSize && maxSize > 0)
  }

  /** The letters of the candidate are the input's letters (sub-anagram: a
      part of them), with multiplicity. */
  predicate LettersMatch(word: string, cand: string, sub: bool)
  {
    if sub then multiset(cand) <= multiset(word) else multiset(cand) == multiset(word)
  }

  /** TestAnagram as a function: whether `dictword` is published as a
      solution for the input letters `word`. */
  function Accepts(word: string, dictword: string, minSize: int, maxSize: int, sub: bool): (ok: bool)
    ensures ok ==> PassesSizeFilters(|dictword|, minSize, maxSize)
  {
    if |dictword| < minSize then false
    else if |dictword| > maxSize && maxSize > 0 then false
    else
      match Consume(word, dictword)
      case None => false
      case Some(rest) => sub || |rest| == 0
  }

  /** A candidate is accepted exactly when it passes both length filters and
      its letters are the input's (sub-anagram mode: some of the input's). */
  lemma AcceptsIff(word: string, dictword: string, minSize: int, maxSize: int, sub: bool)
    ensures Accepts(word, dictword, minSize, maxSize, sub) <==>
              PassesSizeFilters(|dictword|, minSize, maxSize) && LettersMatch(word, dictword, sub)
  {
    ConsumeMultiset(word, dictword);
    var m, w := multiset(dictword), multiset(word);
    if m <= w {
      var rest := Consume(word, dictword).value;
      assert |multiset(rest)| == |rest|;
      if m == w {
        assert multiset(rest) == multiset{};
      } else {
        assert exists x :: x in w && w[x] != m[x];
        var x :| x in w && w[x] != m[x];
        assert x in multiset(rest);
      }
    }
  }

  /** The length filters at their edges: `minSize` letters pass and one fewer
      does not; with a positive `maxSize`, `maxSize` letters pass and one more
      does not; a `maxSize` of zero or less sets no upper bound. */
  lemma SizeFilterBoundaries(minSize: int, maxSize: int, n: int)
    ensures minSize > maxSize > 0 || PassesSizeFilters(minSize, minSize, maxSize)
    ensures !PassesSizeFilters(minSize - 1, minSize, maxSize)
    ensures maxSize >= minSize && maxSize > 0 ==> PassesSizeFilters(maxSize, minSize, maxSize)
    ensures maxSize > 0 ==> !PassesSizeFilters(maxSize + 1, minSize, maxSize)
    ensures maxSize <= 0 && n >= minSize ==> PassesSizeFilters(n, minSize, maxSize)
  {
  }

  /** Each occurrence in the input is used at most once: input "aab" never
      accepts "aaa", in either mode. */
  lemma LettersNotReused(minSize: int, maxSize: int, sub: bool)
    ensures !Accepts("aab", "aaa", minSize, maxSize, sub)
  {
    AcceptsIff("aab", "aaa", minSize, maxSize, sub);
    assert multiset("aaa")['a'] == 3;
    assert multiset("aab")['a'] == 2;
  }

  /** A letter missing from what the earlier letters left of the input
      rejects the candidate, whatever letters come after it. */
  lemma MissingLetterRejects(word: string, prefix: string, c: char, suffix: string,
                             minSize: int, maxSize: int, sub: bool)
    requires Consume(word, prefix).Some? && c !in Consume(word, prefix).value
    ensures !Accepts(word, prefix + [c] + suffix, minSize, maxSize, sub)
  {
    MissingLetterStops(word, prefix, c, suffix);
  }

  /** TestAnagram, with the flags given as parameters, the channel send
      replaced by the result `accepted` and the global counter `solutions`
      passed in and out. */
  method TestAnagram(word: string, dictword: string, minSize: int, maxSize: int, sub: bool,
                     solutions: Uint)
    returns (accepted: bool, solutions': Uint)
    ensures accepted == Accepts(word, dictword, minSize, maxSize, sub)
    ensures accepted <==> PassesSizeFilters(|dictword|, minSize, maxSize)
                          && LettersMatch(word, dictword, sub)
    ensures solutions' == if accepted then Inc(solutions) else solutions
  {
    accepted, solutions' := false, solutions;
    if |dictword| < minSize {
      AcceptsIff(word, dictword, minSize, maxSize, sub);
      return;
    }
    if |dictword| > maxSize && maxSize > 0 {
      AcceptsIff(word, dictword, minSize, maxSize, sub);
      return;
    }
    var rest := word;
    var i := 0;
    while i < |dictword|
      invariant 0 <= i <= |dictword|
      invariant Consume(word, dictword) == Consume(rest, dictword[i..])
    {
      var c := dictword[i];
      assert dictword[i..][0] == c && dictword[i..][1..] == dictword[i + 1..];
      if c in rest {
        rest := RemoveFirst(rest, c);
      } else {
        AcceptsIff(word, dictword, minSize, maxSize, sub);
        return;
      }
      i := i + 1;
    }
    if sub {
      accepted, solutions' := true, Inc(solutions);
    } else if |rest| == 0 {
      accepted, solutions' := true, Inc(solutions);
    }
    AcceptsIff(word, dictword, minSize, maxSize, sub);
  }

  // ---------------------------------------------------------------------------
  // main: collecting and printing

  /** The accepted words of a word list, in word-list order. */
  function Solutions(word: string, wordlist: seq<string>, minSize: int, maxSize: int, sub: bool)
    : (found: seq<string>)
    ensures |found| <= |wordlist|
  {
    if wordlist == [] then []
    else
      var last := wordlist[|wordlist| - 1];
      Solutions(word, wordlist[..|wordlist| - 1], minSize, maxSize, sub)
        + (if Accepts(word, last, minSize, maxSize, sub) then [last] else [])
  }

  /** The collected words are exactly the accepted words of the list. */
  lemma {:induction false} SolutionsMembers(word: string, wordlist: seq<string>,
                                            minSize: int, maxSize: int, sub: bool, x: string)
    ensures x in Solutions(word, wordlist, minSize, maxSize, sub) <==>
              x in wordlist && Accepts(word, x, minSize, maxSize, sub)
    decreases |wordlist|
  {
    if wordlist != [] {
      var init := wordlist[..|wordlist| - 1];
      assert wordlist == init + [wordlist[|wordlist| - 1]];
      SolutionsMembers(word, init, minSize, maxSize, sub, x);
    }
  }

  /** Testing one more word of the list adds it to the solutions when it is
      accepted, and nothing otherwise. */
  lemma SolutionsExtend(word: string, wordlist: seq<string>, minSize: int, maxSize: int, sub: bool,
                        k: nat)
    requires k < |wordlist|
    ensures Solutions(word, wordlist[..k + 1], minSize, maxSize, sub)
            == Solutions(word, wordlist[..k], minSize, maxSize, sub)
               + (if Accepts(word, wordlist[k], minSize, maxSize, sub) then [wordlist[k]] else [])
  {
    assert wordlist[..k + 1][..k] == wordlist[..k];
  }

  /** The counter keeps pace with the collector: if it held the number of
      collected words modulo 2^64, it still does after one more test. */
  lemma CounterStep(n: nat, s: Uint, accepted: bool, s': Uint)
    requires s == n % UINT_LIMIT
    requires s' == if accepted then Inc(s) else s
    ensures s' == (if accepted then n + 1 else n) % UINT_LIMIT
  {
  }

  /** One goroutine and its share of the drain loop: test one candidate and,
      when it is accepted, append it to the collector. */
  method CollectOne(ws: WordSorter, word: string, dictword: string, minSize: int, maxSize: int,
                    sub: bool, solutions: Uint)
    returns (solutions': Uint)
    requires ws.Valid() && solutions == |ws.Contents| % UINT_LIMIT
    modifies ws, ws.words
    ensures ws.Valid() && ws.reverse == old(ws.reverse)
    ensures old(ws.words) == ws.words || fresh(ws.words)
    ensures ws.Contents == old(ws.Contents)
              + (if Accepts(word, dictword, minSize, maxSize, sub) then [dictword] else [])
    ensures solutions' == |ws.Contents| % UINT_LIMIT
  {
    ghost var n := |ws.Contents|;
    var accepted;
    accepted, solutions' := TestAnagram(word, dictword, minSize, maxSize, sub, solutions);
    CounterStep(n, solutions, accepted, solutions');
    if accepted {
      ws.Append(dictword);
    }
    assert |ws.Contents| == if accepted then n + 1 else n;
  }

  /** The goroutine fan-out and the drain loop of main, run one candidate at
      a time: every accepted candidate is appended to a fresh collector, and
      `solutions` ends as the number of them, as a 64-bit counter. */
  method CollectSolutions(word: string, wordlist: seq<string>, minSize: int, maxSize: int, sub: bool)
    returns (ws: WordSorter, solutions: Uint)
    ensures fresh(ws) && fresh(ws.words) && ws.Valid() && !ws.reverse
    ensures ws.Contents == Solutions(word, wordlist, minSize, maxSize, sub)
    ensures solutions == |ws.Contents| % UINT_LIMIT
  {
    ws := new WordSorter();
    solutions := 0;
    var k := 0;
    while k < |wordlist|
      invariant 0 <= k <= |wordlist|
      invariant fresh(ws) && fresh(ws.words) && ws.Valid() && !ws.reverse
      invariant ws.Contents == Solutions(word, wordlist[..k], minSize, maxSize, sub)
      invariant solutions == |ws.Contents| % UINT_LIMIT
    {
      SolutionsExtend(word, wordlist, minSize, maxSize, sub, k);
      solutions := CollectOne(ws, word, wordlist[k], minSize, maxSize, sub, solutions);
      k := k + 1;
    }
    assert wordlist[..k] == wordlist;
  }

  /** The printing loop of main: the first `count` words when `count` is
      positive, otherwise every word, in order. */
  method Emit(words: seq<string>, count: int) returns (out: seq<string>)
    ensures |out| == if 0 < count < |words| then count else |words|
    ensures out == words[..|out|]
  {
    out := [];
    var i := 0;
    while i < |words|
      invariant 0 <= i <= |words|
      invariant out == words[..i]
      invariant count > 0 ==> i <= count
    {
      if count > 0 && i >= count {
        break;
      }
      out := out + [words[i]];
      i := i + 1;
    }
  }

  /** The whole batch run of main after the word list is read: collect the
      solutions, sort them by length when asked (longest first with
      `reverse`), and print at most `count` of them.  The ghost result
      `ordered` is the collector's contents just before printing: the
      solutions themselves, or a length-sorted permutation of them. */
  method Anagramize(word: string, wordlist: seq<string>, minSize: int, maxSize: int, sub: bool,
                    sortResults: bool, reverse: bool, count: int)
    returns (out: seq<string>, ghost ordered: seq<string>)
    ensures multiset(ordered) == multiset(Solutions(word, wordlist, minSize, maxSize, sub))
    ensures !sortResults ==> ordered == Solutions(word, wordlist, minSize, maxSize, sub)
    ensures sortResults ==> AdjacentInOrder(ordered, reverse)
    ensures |out| == if 0 < count < |ordered| then count else |ordered|
    ensures out == ordered[..|out|]
    ensures multiset(out) <= multiset(Solutions(word, wordlist, minSize, maxSize, sub))
    ensures forall x :: x in out ==> x in wordlist && Accepts(word, x, minSize, maxSize, sub)
    ensures sortResults ==> AdjacentInOrder(out, reverse)
    ensures count <= 0 ==> multiset(out) == multiset(Solutions(word, wordlist, minSize, maxSize, sub))
  {
    var ws, solutions := CollectSolutions(word, wordlist, minSize, maxSize, sub);
    if sortResults {
      if reverse {
        ws.SortReversed();
      } else {
        ws.Sort();
      }
      SortedIffAdjacent(ws.Contents, reverse);
    }
    ordered := ws.Contents;
    out := Emit(ws.Words(), count);
    PrefixKeeps(ordered, out, reverse);
    SolutionsCover(word, wordlist, minSize, maxSize, sub, out);
  }

  /** Any words drawn from the solutions are accepted words of the list. */
  lemma SolutionsCover(word: string, wordlist: seq<string>, minSize: int, maxSize: int, sub: bool,
                       out: seq<string>)
    requires multiset(out) <= multiset(Solutions(word, wordlist, minSize, maxSize, sub))
    ensures forall x :: x in out ==> x in wordlist && Accepts(word, x, minSize, maxSize, sub)
  {
    forall x | x in out
      ensures x in wordlist && Accepts(word, x, minSize, maxSize, sub)
    {
      assert x in multiset(out);
      SolutionsMembers(word, wordlist, minSize, maxSize, sub, x);
    }
  }

  /** What a printed prefix inherits from the list it is cut from. */
  lemma PrefixKeeps(s: seq<string>, p: seq<string>, reverse: bool)
    requires |p| <= |s| && p == s[..|p|]
    ensures multiset(p) <= multiset(s)
    ensures forall x :: x in p ==> x in multiset(s)
    ensures |p| == |s| ==> p == s
    ensures AdjacentInOrder(s, reverse) ==> AdjacentInOrder(p, reverse)
  {
    assert s == p + s[|p|..];
    assert multiset(s) == multiset(p) + multiset(s[|p|..]);
  }
}
