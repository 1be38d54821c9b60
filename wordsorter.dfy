/** The result collector of anagramizer (wordsorter.go): a growable array of
    words with a word count, sorted by word length in one of two directions.
    The mutex that guards every mutating operation is left out: this model is
    sequential. */
module WordSort {

  /** May `a` stand before `b` once the collector is sorted?  This is the
      negation of `Less` with the two words exchanged: shorter (or equal) first,
      or longer (or equal) first when `reverse` is set. */
  predicate InOrder(a: string, b: string, reverse: bool)
  {
    if reverse then |a| >= |b| else |a| <= |b|
  }

  /** Every earlier word of the first `n` may stand before every later one. */
  ghost predicate SortedUpTo(s: seq<string>, n: nat, reverse: bool)
    requires n <= |s|
  {
    forall a, b :: 0 <= a < b < n ==> InOrder(s[a], s[b], reverse)
  }

  ghost predicate Sorted(s: seq<string>, reverse: bool)
  {
    SortedUpTo(s, |s|, reverse)
  }

  /** Neighbours in order: the form in which a length-sorted list is usually
      stated (each word no longer, or no shorter, than the next). */
  ghost predicate AdjacentInOrder(s: seq<string>, reverse: bool)
  {
    forall k :: 0 <= k < |s| - 1 ==> InOrder(s[k], s[k + 1], reverse)
  }

  /** The two readings of "sorted" agree, because length comparison is
      transitive. */
  lemma {:induction false} SortedIffAdjacent(s: seq<string>, reverse: bool)
    ensures Sorted(s, reverse) <==> AdjacentInOrder(s, reverse)
  {
    if AdjacentInOrder(s, reverse) {
      forall a, b | 0 <= a < b < |s|
        ensures InOrder(s[a], s[b], reverse)
      {
        AdjacentChain(s, reverse, a, b);
      }
    }
  }

  lemma {:induction false} AdjacentChain(s: seq<string>, reverse: bool, a: nat, b: nat)
    requires AdjacentInOrder(s, reverse)
    requires a <= b < |s|
    ensures InOrder(s[a], s[b], reverse)
    decreases b - a
  {
    if a < b {
      AdjacentChain(s, reverse, a + 1, b);
      assert InOrder(s[a], s[a + 1], reverse);
    }
  }

  class WordSorter {
    var reverse: bool
    /** The backing store; its length is the slice's capacity. */
    var words: array<string>
    /** The slice's length: the number of words appended so far. */
    var count: nat
    /** The collected words, in their current order. */
    ghost var Contents: seq<string>

    ghost predicate Valid()
      reads this, words
    {
      count <= words.Length && Contents == words[..count]
    }

    /** The zero value of the struct, as `new(WordSorter)` yields it: no
        words and no capacity. */
    constructor ()
      ensures Valid() && fresh(words)
      ensures Contents == [] && count == 0 && !reverse && words.Length == 0
    {
      reverse := false;
      words := new string[0];
      count := 0;
      Contents := [];
    }

    /** Resets the collector: unreversed, empty, a fresh zero-capacity slice. */
    method Init()
      modifies this
      ensures Valid() && fresh(words)
      ensures Contents == [] && count == 0 && !reverse && words.Length == 0
    {
      reverse := false;
      count := 0;
      words := new string[0];
      Contents := [];
    }

    function Len(): (n: nat)
      reads this, words
      requires Valid()
      ensures n == |Contents|
    {
      count
    }

    /** Exchanges two stored words; nothing else changes. */
    method Swap(i: nat, j: nat)
      requires Valid() && i < count && j < count
      modifies this, words
      ensures Valid() && words == old(words) && count == old(count) && reverse == old(reverse)
      ensures Contents == old(Contents)[i := old(Contents)[j]][j := old(Contents)[i]]
      ensures multiset(Contents) == multiset(old(Contents))
    {
      var tmp := words[i];
      words[i] := words[j];
      words[j] := tmp;
      Contents := Contents[i := Contents[j]][j := Contents[i]];
    }

    /** Word i must come strictly before word j: it is shorter, or longer when
        `reverse` is set. */
    function Less(i: nat, j: nat): (b: bool)
      reads this, words
      requires Valid() && i < count && j < count
      ensures b <==> !InOrder(Contents[j], Contents[i], reverse)
    {
      if reverse then |words[i]| > |words[j]| else |words[i]| < |words[j]|
    }

    /** Adds a word at the end.  When the capacity is used up, the store is
        replaced by one of twice the needed size, (count + 1) * 2, into which
        the stored words are copied first. */
    method Append(data: string)
      requires Valid()
      modifies this, words
      ensures Valid()
      ensures Contents == old(Contents) + [data] && count == old(count) + 1
      ensures reverse == old(reverse)
      ensures old(count) + 1 > old(words.Length) ==>
                fresh(words) && words.Length == (old(count) + 1) * 2
      ensures old(count) + 1 <= old(words.Length) ==> words == old(words)
    {
      if count + 1 > words.Length {
        var grown := new string[(count + 1) * 2];
        var k := 0;
        while k < count
          invariant 0 <= k <= count < grown.Length
          invariant Valid() && unchanged(this)
          invariant forall m :: 0 <= m < k ==> grown[m] == words[m]
        {
          grown[k] := words[k];
          k := k + 1;
        }
        assert grown[..count] == words[..count];
        words := grown;
      }
      words[count] := data;
      count := count + 1;
      Contents := Contents + [data];
    }

    /** The slice of stored words. */
    function Words(): (s: seq<string>)
      reads this, words
      requires Valid()
      ensures s == Contents
    {
      words[..count]
    }

    function Word(i: nat): (w: string)
      reads this, words
      requires Valid() && i < count
      ensures w == Contents[i]
    {
      words[i]
    }

    /** Orders the words in the direction already set: the model of the
        library call sort.Sort, written as an insertion sort over Less and
        Swap. */
    method SortByLess()
      requires Valid()
      modifies this, words
      ensures Valid() && words == old(words) && count == old(count) && reverse == old(reverse)
      ensures Sorted(Contents, reverse)
      ensures multiset(Contents) == multiset(old(Contents))
    {
      var i := 0;
      while i < count
        invariant 0 <= i <= count
        invariant Valid() && words == old(words) && count == old(count) && reverse == old(reverse)
        invariant SortedUpTo(Contents, i, reverse)
        invariant multiset(Contents) == multiset(old(Contents))
      {
        SinkLast(i);
        i := i + 1;
      }
    }

    /** One insertion step: with the first i words sorted, moves word i left by
        swaps until the first i + 1 words are sorted. */
    method SinkLast(i: nat)
      requires Valid() && i < count
      requires SortedUpTo(Contents, i, reverse)
      modifies this, words
      ensures Valid() && words == old(words) && count == old(count) && reverse == old(reverse)
      ensures SortedUpTo(Contents, i + 1, reverse)
      ensures multiset(Contents) == multiset(old(Contents))
    {
      var j := i;
      while j > 0 && Less(j, j - 1)
        invariant 0 <= j <= i
        invariant Valid() && words == old(words) && count == old(count) && reverse == old(reverse)
        invariant forall a, b :: 0 <= a < b <= i && a != j && b != j ==>
                    InOrder(Contents[a], Contents[b], reverse)
        invariant forall b :: j < b <= i ==> InOrder(Contents[j], Contents[b], reverse)
        invariant multiset(Contents) == multiset(old(Contents))
        decreases j
      {
        Swap(j, j - 1);
        j := j - 1;
      }
      forall a, b | 0 <= a < b <= i
        ensures InOrder(Contents[a], Contents[b], reverse)
      {
        if b == j && 0 < j && a < j - 1 {
          assert InOrder(Contents[a], Contents[j - 1], reverse);
        }
      }
    }

    /** Sorts the words from shortest to longest. */
    method Sort()
      requires Valid()
      modifies this, words
      ensures Valid() && words == old(words) && count == old(count)
      ensures !reverse
      ensures forall k :: 0 <= k < count - 1 ==> |Contents[k]| <= |Contents[k + 1]|
      ensures multiset(Contents) == multiset(old(Contents))
    {
      reverse := false;
      SortByLess();
      SortedIffAdjacent(Contents, reverse);
      assert AdjacentInOrder(Contents, false);
    }

    /** Sorts the words from longest to shortest. */
    method SortReversed()
      requires Valid()
      modifies this, words
      ensures Valid() && words == old(words) && count == old(count)
      ensures reverse
      ensures forall k :: 0 <= k < count - 1 ==> |Contents[k]| >= |Contents[k + 1]|
      ensures multiset(Contents) == multiset(old(Contents))
    {
      reverse := true;
      SortByLess();
      SortedIffAdjacent(Contents, reverse);
      assert AdjacentInOrder(Contents, true);
    }
  }
}
