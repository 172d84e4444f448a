/** The path tokenizer. A path text `/seg/seg/...` is read through a forward
    iterator whose state is the offset of its current segment in the text; the
    iterator skips every run of separators, so repeated and trailing `/` yield no
    empty segment. Every character other than `/` is kept verbatim. */
module PathView {
  import opened Common

  const Separator: char := '/'

  /** `find_first_not_of(Separator)` from offset `i`: the first non-separator at or
      after `i`, or the end of the text. */
  function SkipSeparators(s: string, i: nat): (j: nat)
    requires i <= |s|
    ensures i <= j <= |s|
    ensures forall k :: i <= k < j ==> s[k] == Separator
    ensures j < |s| ==> s[j] != Separator
    decreases |s| - i
  {
    if i == |s| || s[i] != Separator then i else SkipSeparators(s, i + 1)
  }

  /** `find_first_of(Separator)` from offset `i`: the first separator at or after
      `i`, or the end of the text. */
  function SegmentEnd(s: string, i: nat): (j: nat)
    requires i <= |s|
    ensures i <= j <= |s|
    ensures forall k :: i <= k < j ==> s[k] != Separator
    ensures j < |s| ==> s[j] == Separator
    decreases |s| - i
  {
    if i == |s| || s[i] == Separator then i else SegmentEnd(s, i + 1)
  }

  /** `const_iterator`: `at` is the offset in the viewed text where the current
      segment starts; the end iterator has `at == |text|`. Two iterators are equal
      when their current segments start at the same place. */
  datatype ConstIterator = ConstIterator(at: nat)

  /** An iterator that the tokenizer can produce over `s`: at the end, or on a
      character that starts a segment. */
  predicate IsIterator(s: string, it: ConstIterator)
  {
    it.at <= |s| && (it.at < |s| ==> s[it.at] != Separator)
  }

  /** `const_iterator{ s.substr(from) }`: skip the separators, then stand on the
      segment that follows. */
  function IteratorFrom(s: string, from: nat): (it: ConstIterator)
    requires from <= |s|
    ensures IsIterator(s, it) && from <= it.at
  {
    ConstIterator(SkipSeparators(s, from))
  }

  /** `*it`: the current segment, up to the next separator. */
  function Current(s: string, it: ConstIterator): (seg: string)
    requires IsIterator(s, it)
    ensures it.at < |s| <==> seg != []
    ensures forall k :: 0 <= k < |seg| ==> seg[k] != Separator
  {
    s[it.at..SegmentEnd(s, it.at)]
  }

  /** `++it`: move past the current segment and every separator after it. */
  function Next(s: string, it: ConstIterator): (next: ConstIterator)
    requires IsIterator(s, it) && it.at < |s|
    ensures IsIterator(s, next)
    ensures it.at + |Current(s, it)| <= next.at
    ensures forall k :: it.at + |Current(s, it)| <= k < next.at ==> s[k] == Separator
  {
    IteratorFrom(s, SegmentEnd(s, it.at))
  }

  /** `std::distance(it, end)`: how many `++` reach the end iterator. */
  function Distance(s: string, it: ConstIterator): nat
    requires IsIterator(s, it)
    decreases |s| - it.at
  {
    if it.at == |s| then 0 else 1 + Distance(s, Next(s, it))
  }

  /** The segments the iterator yields from `it` up to the end. */
  function Segments(s: string, it: ConstIterator): (segs: seq<string>)
    requires IsIterator(s, it)
    ensures |segs| == Distance(s, it)
    decreases |s| - it.at
  {
    if it.at == |s| then [] else [Current(s, it)] + Segments(s, Next(s, it))
  }

  /** `std::next(it, n)`. */
  function Advance(s: string, it: ConstIterator, n: nat): (r: ConstIterator)
    requires IsIterator(s, it) && n <= Distance(s, it)
    ensures IsIterator(s, r)
    decreases n
  {
    if n == 0 then it else Advance(s, Next(s, it), n - 1)
  }

  /** A view of a path text from `begin` to the end of the text, with the depth
      the constructor computes. */
  datatype PathView = PathView(text: string, begin: ConstIterator)
  {
    predicate Valid() { IsIterator(text, begin) }

    /** The depth counted once, at construction: how many segments the view
        yields. */
    function GetDepth(): (d: nat)
      requires Valid()
      ensures d == |Segments(text, begin)|
    {
      Distance(text, begin)
    }

    /** A view is empty exactly when it yields no segment. */
    predicate IsEmpty()
      requires Valid()
      ensures IsEmpty() <==> Segments(text, begin) == []
    {
      GetDepth() == 0
    }

    function End(): ConstIterator
    {
      ConstIterator(|text|)
    }

    /** The segments of the view, in order. */
    function Keys(): seq<string>
      requires Valid()
    {
      Segments(text, begin)
    }

    /** `GetRest(it)`: the view that starts at `it` and keeps the same end. */
    function GetRest(it: ConstIterator): (rest: PathView)
      requires Valid() && IsIterator(text, it)
      ensures rest.Valid() && rest.text == text && rest.End() == End()
      ensures rest.GetDepth() == |Segments(text, it)|
    {
      PathView(text, it)
    }
  }

  /** The `PathView(std::string_view)` constructor. The text must not be empty
      (the constructor reads `front()`); a text that does not start with `/`
      throws `invalid_argument`. */
  function Parse(text: string): (r: Outcome<PathView>)
    requires |text| > 0
    ensures r.Thrown? <==> text[0] != Separator
    ensures r.Thrown? ==> r.error == InvalidArgument
    ensures r.Done? ==> r.value.Valid() && r.value.text == text
    ensures r.Done? ==> r.value.Keys() == Split(text)
    ensures r.Done? ==> r.value.GetDepth() == |Split(text)|
  {
    var view := PathView(text, IteratorFrom(text, 0));
    SegmentsMatchSplit(text, 0);
    if text[0] != Separator then Thrown(InvalidArgument) else Done(view)
  }

  // ---------------------------------------------------------------------------
  // Reference tokenizer: one pass over the characters, collecting each maximal
  // run of non-separator characters.

  function Flush(run: string): seq<string>
  {
    if run == [] then [] else [run]
  }

  function SplitFrom(s: string, i: nat, run: string): seq<string>
    requires i <= |s|
    decreases |s| - i
  {
    if i == |s| then Flush(run)
    else if s[i] == Separator then Flush(run) + SplitFrom(s, i + 1, [])
    else SplitFrom(s, i + 1, run + [s[i]])
  }

  /** The maximal runs of non-`/` characters of `s`, in order. */
  function Split(s: string): seq<string>
  {
    SplitFrom(s, 0, [])
  }

  // ---------------------------------------------------------------------------
  // Properties of the tokenizer.

  /** Reading on from the middle of a run finishes that run first. */
  lemma {:induction false} SplitFinishesRun(s: string, j: nat, i: nat)
    requires j <= |s| && j <= i <= SegmentEnd(s, j)
    ensures SplitFrom(s, i, s[j..i]) ==
            Flush(s[j..SegmentEnd(s, j)]) +
            (if SegmentEnd(s, j) == |s| then [] else SplitFrom(s, SegmentEnd(s, j) + 1, []))
    decreases |s| - i
  {
    var e := SegmentEnd(s, j);
    if i < e {
      assert s[j..i] + [s[i]] == s[j..i + 1];
      SplitFinishesRun(s, j, i + 1);
    } else {
      assert i == e;
    }
  }

  /** The iterator yields exactly the maximal runs of non-separator characters. */
  lemma {:induction false} SegmentsMatchSplit(s: string, i: nat)
    requires i <= |s|
    ensures Segments(s, IteratorFrom(s, i)) == SplitFrom(s, i, [])
    decreases |s| - i
  {
    if i == |s| {
    } else if s[i] == Separator {
      assert IteratorFrom(s, i) == IteratorFrom(s, i + 1);
      assert SplitFrom(s, i, []) == [] + SplitFrom(s, i + 1, []);
      SegmentsMatchSplit(s, i + 1);
    } else {
      var e := SegmentEnd(s, i);
      IteratorYieldsRun(s, i, e);
      SplitYieldsRun(s, i, e);
      if e < |s| {
        SegmentsMatchSplit(s, e + 1);
      }
    }
  }

  /** From a non-separator, the iterator yields the run that starts there, then
      what it yields past the separator that ends the run. */
  lemma IteratorYieldsRun(s: string, i: nat, e: nat)
    requires i < |s| && s[i] != Separator && e == SegmentEnd(s, i)
    ensures e < |s| ==> Segments(s, IteratorFrom(s, i)) == [s[i..e]] + Segments(s, IteratorFrom(s, e + 1))
    ensures e == |s| ==> Segments(s, IteratorFrom(s, i)) == [s[i..e]]
  {
    var it := IteratorFrom(s, i);
    assert it.at == i;
    if e < |s| {
      assert Next(s, it) == IteratorFrom(s, e + 1);
    }
  }

  /** From a non-separator, the reference tokenizer yields the run that starts
      there, then what it yields past the separator that ends the run. */
  lemma SplitYieldsRun(s: string, i: nat, e: nat)
    requires i < |s| && s[i] != Separator && e == SegmentEnd(s, i)
    ensures e < |s| ==> SplitFrom(s, i, []) == [s[i..e]] + SplitFrom(s, e + 1, [])
    ensures e == |s| ==> SplitFrom(s, i, []) == [s[i..e]]
  {
    assert s[i..i] == [];
    SplitFinishesRun(s, i, i);
  }

  /** Every yielded segment is non-empty and holds no separator. */
  lemma {:induction false} SegmentsAreWellFormed(s: string, it: ConstIterator)
    requires IsIterator(s, it)
    ensures forall k :: 0 <= k < |Segments(s, it)| ==>
              Segments(s, it)[k] != [] && Separator !in Segments(s, it)[k]
    decreases |s| - it.at
  {
    if it.at < |s| {
      SegmentsAreWellFormed(s, Next(s, it));
      var segs := Segments(s, it);
      forall k | 0 <= k < |segs|
        ensures segs[k] != [] && Separator !in segs[k]
      {
        if k > 0 {
          assert segs[k] == Segments(s, Next(s, it))[k - 1];
        }
      }
    }
  }

  /** After `n` increments the segments from there on are the whole sequence
      minus its first `n`. */
  lemma {:induction false} AdvanceDropsSegments(s: string, it: ConstIterator, n: nat)
    requires IsIterator(s, it) && n <= Distance(s, it)
    ensures Segments(s, Advance(s, it, n)) == Segments(s, it)[n..]
    decreases n
  {
    if n > 0 {
      AdvanceDropsSegments(s, Next(s, it), n - 1);
      assert Segments(s, it)[n..] == Segments(s, Next(s, it))[n - 1..];
    }
  }

  /** After `n` increments the iterator stands on the `n`-th segment, and it
      is the end exactly when `n` is the distance. */
  lemma AdvanceSkipsSegments(s: string, it: ConstIterator, n: nat)
    requires IsIterator(s, it) && n <= Distance(s, it)
    ensures Distance(s, Advance(s, it, n)) == Distance(s, it) - n
    ensures Segments(s, Advance(s, it, n)) == Segments(s, it)[n..]
    ensures n < Distance(s, it) ==> Current(s, Advance(s, it, n)) == Segments(s, it)[n]
    ensures Advance(s, it, n).at == |s| <==> n == Distance(s, it)
  {
    AdvanceDropsSegments(s, it, n);
    var a := Advance(s, it, n);
    if a.at < |s| {
      assert Segments(s, a)[0] == Current(s, a);
    }
  }

  /** One more `++` after `n` increments is `n + 1` increments. */
  lemma {:induction false} AdvanceNext(s: string, it: ConstIterator, n: nat)
    requires IsIterator(s, it) && n < Distance(s, it)
    ensures Advance(s, it, n).at < |s|
    ensures Advance(s, it, n + 1) == Next(s, Advance(s, it, n))
    decreases n
  {
    if n > 0 {
      AdvanceNext(s, Next(s, it), n - 1);
    }
  }

  /** The iterator after `i` increments: it is the end exactly when `i` is the
      depth; before that it stands on the `i`-th key, and `++` gives the
      iterator after `i + 1` increments. */
  lemma IteratorAt(v: PathView, i: nat)
    requires v.Valid() && i <= v.GetDepth()
    ensures Advance(v.text, v.begin, i) == v.End() <==> i == v.GetDepth()
    ensures i < v.GetDepth() ==>
              && Advance(v.text, v.begin, i).at < |v.text|
              && Current(v.text, Advance(v.text, v.begin, i)) == v.Keys()[i]
              && Next(v.text, Advance(v.text, v.begin, i)) == Advance(v.text, v.begin, i + 1)
  {
    AdvanceSkipsSegments(v.text, v.begin, i);
    if i < v.GetDepth() {
      AdvanceNext(v.text, v.begin, i);
    }
  }

  /** The end iterator is reached after exactly `GetDepth()` increments. */
  lemma EndAfterDepthIncrements(v: PathView)
    requires v.Valid()
    ensures Advance(v.text, v.begin, v.GetDepth()) == v.End()
  {
    AdvanceSkipsSegments(v.text, v.begin, v.GetDepth());
  }

  /** The whole path is its first `n` segments followed by the segments of the
      rest view taken after `n` increments. */
  lemma RestConcatenates(v: PathView, n: nat)
    requires v.Valid() && n <= v.GetDepth()
    ensures v.Keys() == v.Keys()[..n] + v.GetRest(Advance(v.text, v.begin, n)).Keys()
    ensures v.GetRest(Advance(v.text, v.begin, n)).GetDepth() == v.GetDepth() - n
  {
    AdvanceSkipsSegments(v.text, v.begin, n);
  }

  /** `"/"` parses to the empty path. */
  lemma RootIsEmpty()
    ensures Parse("/").Done? && Parse("/").value.IsEmpty()
  {
    assert SplitFrom("/", 1, []) == [];
  }

  /** A relative path such as `"foo"` is rejected. */
  lemma RelativeIsRejected()
    ensures Parse("foo") == Thrown(InvalidArgument)
  {
  }

  /** Repeated and trailing separators are collapsed, punctuation is kept. */
  lemma ExampleSegments()
    ensures Split("/foo///bar/baz/etc//") == ["foo", "bar", "baz", "etc"]
  {
    var s := "/foo///bar/baz/etc//";
    assert "et" + [s[17]] == "etc";
    assert "e" + [s[16]] == "et";
    assert "" + [s[15]] == "e";
    assert SplitFrom(s, 15, "") == ["etc"];
    assert "ba" + [s[13]] == "baz";
    assert "b" + [s[12]] == "ba";
    assert "" + [s[11]] == "b";
    assert SplitFrom(s, 11, "") == ["baz", "etc"];
    assert "ba" + [s[9]] == "bar";
    assert "b" + [s[8]] == "ba";
    assert "" + [s[7]] == "b";
    assert SplitFrom(s, 7, "") == ["bar", "baz", "etc"];
    assert "fo" + [s[3]] == "foo";
    assert "f" + [s[2]] == "fo";
    assert "" + [s[1]] == "f";
    assert SplitFrom(s, 0, "") == ["foo", "bar", "baz", "etc"];
  }

  /** Non-ASCII letters and punctuation stay in the segment. */
  lemma ExampleInternational()
    ensures Split("/фу./бар#/баз?/итд*/") == ["фу.", "бар#", "баз?", "итд*"]
  {
    var s := "/фу./бар#/баз?/итд*/";
    assert "итд" + [s[18]] == "итд*";
    assert "ит" + [s[17]] == "итд";
    assert "и" + [s[16]] == "ит";
    assert "" + [s[15]] == "и";
    assert SplitFrom(s, 15, "") == ["итд*"];
    assert "баз" + [s[13]] == "баз?";
    assert "ба" + [s[12]] == "баз";
    assert "б" + [s[11]] == "ба";
    assert "" + [s[10]] == "б";
    assert SplitFrom(s, 10, "") == ["баз?", "итд*"];
    assert "бар" + [s[8]] == "бар#";
    assert "ба" + [s[7]] == "бар";
    assert "б" + [s[6]] == "ба";
    assert "" + [s[5]] == "б";
    assert SplitFrom(s, 9, "бар#") == ["бар#"] + SplitFrom(s, 10, "");
    assert SplitFrom(s, 5, "") == ["бар#", "баз?", "итд*"];
    assert "фу" + [s[3]] == "фу.";
    assert "ф" + [s[2]] == "фу";
    assert "" + [s[1]] == "ф";
    assert SplitFrom(s, 0, "") == ["фу.", "бар#", "баз?", "итд*"];
  }
}
