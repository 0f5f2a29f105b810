/** The `key: value` mini-language of a character's additional info, shared by
    `create` and `edit meta` (cogs/Characters.py:126-140 and 193-204). */
module Meta {
  import opened Text

  /** A reply is cut on newlines when it holds one, and on commas otherwise. */
  function Segments(text: string): seq<string>
  {
    if '\n' in text then Split(text, "\n") else Split(text, ",")
  }

  /** One segment: `seg.split(": ")` must give exactly two parts, the key and
      the value, each then stripped; anything else is `None`. */
  function Pair(seg: string): Option<(string, string)>
  {
    var parts := Split(seg, ": ");
    if |parts| == 2 then Some((Strip(parts[0]), Strip(parts[1]))) else None
  }

  /** A meta map after some segments were written into it, and whether all of them parsed. */
  datatype Applied = Applied(meta: map<string, string>, ok: bool)

  /** Writing the segments into `meta` in order. At the first segment that does
      not parse the writing stops; what was written before it stays. */
  function ApplySegments(meta: map<string, string>, segs: seq<string>): Applied
    decreases |segs|
  {
    if segs == [] then Applied(meta, true)
    else Write(ApplySegments(meta, segs[..|segs| - 1]), segs[|segs| - 1])
  }

  /** One more segment written after `before`, unless an earlier one already failed. */
  function Write(before: Applied, seg: string): Applied
  {
    if !before.ok then before
    else match Pair(seg)
      case None => Applied(before.meta, false)
      case Some(kv) => Applied(before.meta[kv.0 := kv.1], true)
  }

  /** The parse loop as the commands run it: `meta` is the map being written
      to, `result` that map afterwards and `ok` whether no exception was
      raised. */
  method ParseMetaInto(text: string, meta: map<string, string>) returns (result: map<string, string>, ok: bool)
    ensures Applied(result, ok) == ApplySegments(meta, Segments(text))
  {
    var segs;
    if '\n' in text {
      segs := Split(text, "\n");
    } else {
      segs := Split(text, ",");
    }
    result := meta;
    var i := 0;
    while i < |segs|
      invariant 0 <= i <= |segs|
      invariant ApplySegments(meta, segs[..i]) == Applied(result, true)
    {
      var parts := Split(segs[i], ": ");
      assert segs[..i + 1][..i] == segs[..i];
      assert ApplySegments(meta, segs[..i + 1]) == Write(Applied(result, true), segs[i]);
      if |parts| != 2 {
        ApplyStopsAtFailure(meta, segs, i + 1);
        return result, false;
      }
      var key := Strip(parts[0]);
      var value := Strip(parts[1]);
      result := result[key := value];
      i := i + 1;
    }
    assert segs[..i] == segs;
    assert segs == Segments(text);
    ok := true;
  }

  // ---------------------------------------------------------------- segments

  /** The separator is chosen once for the whole reply: with a newline in it,
      no segment holds a newline and commas stay inside the segments; without
      one, no segment holds a comma. Either way the segments joined back with
      that separator are the reply. */
  lemma SegmentsSeparator(text: string)
    ensures '\n' in text ==> Join(Segments(text), "\n") == text && forall p :: p in Segments(text) ==> '\n' !in p
    ensures '\n' !in text ==> Join(Segments(text), ",") == text && forall p :: p in Segments(text) ==> ',' !in p
  {
    if '\n' in text {
      SplitJoin(text, "\n");
      SplitPartsLackSeparator(text, '\n');
    } else {
      SplitJoin(text, ",");
      SplitPartsLackSeparator(text, ',');
    }
  }

  /** A segment parses exactly when it holds `": "` once, and then it is
      `a + ": " + b` with key `a` and value `b`, both stripped. */
  lemma PairShape(seg: string)
    ensures Pair(seg).Some? <==> Count(seg, ": ") == 1
    ensures Pair(seg).Some? ==> exists a, b :: seg == a + ": " + b && Pair(seg).value == (Strip(a), Strip(b))
  {
    SplitColonSpaceParts(seg);
    var parts := Split(seg, ": ");
    if |parts| == 2 {
      SplitJoin(seg, ": ");
      assert Join(parts, ": ") == parts[0] + ": " + parts[1];
      assert seg == parts[0] + ": " + parts[1];
    }
  }

  // ---------------------------------------------------------------- applying

  /** Once a segment fails, later segments change nothing. */
  lemma {:induction false} ApplyStopsAtFailure(meta: map<string, string>, segs: seq<string>, n: nat)
    requires n <= |segs|
    requires !ApplySegments(meta, segs[..n]).ok
    ensures ApplySegments(meta, segs) == ApplySegments(meta, segs[..n])
    decreases |segs| - n
  {
    if n < |segs| {
      assert segs[..n + 1][..n] == segs[..n];
      ApplyStopsAtFailure(meta, segs, n + 1);
    } else {
      assert segs[..n] == segs;
    }
  }

  /** The whole reply is accepted exactly when every segment parses. */
  lemma {:induction false} ApplyOkIff(meta: map<string, string>, segs: seq<string>)
    ensures ApplySegments(meta, segs).ok <==> forall i :: 0 <= i < |segs| ==> Pair(segs[i]).Some?
    decreases |segs|
  {
    if segs != [] {
      var init := segs[..|segs| - 1];
      ApplyOkIff(meta, init);
      assert forall i :: 0 <= i < |init| ==> init[i] == segs[i];
      assert ApplySegments(meta, segs) == Write(ApplySegments(meta, init), segs[|segs| - 1]);
      if forall i :: 0 <= i < |segs| ==> Pair(segs[i]).Some? {
        assert ApplySegments(meta, init).ok;
      } else {
        var k :| 0 <= k < |segs| && Pair(segs[k]).None?;
        if k < |init| {
          assert !ApplySegments(meta, init).ok;
        }
      }
    }
  }

  /** No rollback: when segment `j` is the first that fails, the map keeps
      every pair written by the segments before it. */
  lemma ApplyNoRollback(meta: map<string, string>, segs: seq<string>, j: nat)
    requires j < |segs| && Pair(segs[j]).None?
    requires forall i :: 0 <= i < j ==> Pair(segs[i]).Some?
    ensures ApplySegments(meta, segs[..j]).ok
    ensures ApplySegments(meta, segs) == Applied(ApplySegments(meta, segs[..j]).meta, false)
  {
    var pre := segs[..j];
    ApplyOkIff(meta, pre);
    assert segs[..j + 1][..j] == pre;
    assert segs[..j + 1][j] == segs[j];
    ApplyStopsAtFailure(meta, segs, j + 1);
  }

  /** Later duplicates overwrite earlier ones: the key of the last segment
      that names it carries that segment's value. */
  lemma {:induction false} ApplyLastWins(meta: map<string, string>, segs: seq<string>, i: nat)
    requires i < |segs|
    requires forall j :: 0 <= j < |segs| ==> Pair(segs[j]).Some?
    requires forall j :: i < j < |segs| ==> Pair(segs[j]).value.0 != Pair(segs[i]).value.0
    ensures var (key, value) := Pair(segs[i]).value;
      key in ApplySegments(meta, segs).meta && ApplySegments(meta, segs).meta[key] == value
    decreases |segs|
  {
    var init := segs[..|segs| - 1];
    ApplyOkIff(meta, init);
    assert forall j :: 0 <= j < |init| ==> init[j] == segs[j];
    if i < |segs| - 1 {
      ApplyLastWins(meta, init, i);
    }
  }

  /** A key that no segment names is left as it was, whether or not the reply parsed. */
  lemma {:induction false} ApplyUntouched(meta: map<string, string>, segs: seq<string>, key: string)
    requires forall j :: 0 <= j < |segs| && Pair(segs[j]).Some? ==> Pair(segs[j]).value.0 != key
    ensures key in ApplySegments(meta, segs).meta <==> key in meta
    ensures key in meta ==> ApplySegments(meta, segs).meta[key] == meta[key]
    decreases |segs|
  {
    if segs != [] {
      var init := segs[..|segs| - 1];
      assert forall j :: 0 <= j < |init| ==> init[j] == segs[j];
      ApplyUntouched(meta, init, key);
    }
  }

  /** The keys segments write do not depend on the map they are written
      into: a key they do not write into an empty map keeps its presence and
      its value in any map. */
  lemma {:induction false} ApplyKeepsUnwritten(meta: map<string, string>, segs: seq<string>, key: string)
    requires key !in ApplySegments(map[], segs).meta
    ensures key in ApplySegments(meta, segs).meta <==> key in meta
    ensures key in meta ==> ApplySegments(meta, segs).meta[key] == meta[key]
    decreases |segs|
  {
    if segs != [] {
      var init := segs[..|segs| - 1];
      ApplyOkIff(meta, init);
      ApplyOkIff(map[], init);
      assert key !in ApplySegments(map[], init).meta;
      ApplyKeepsUnwritten(meta, init, key);
    }
  }

  /** Writing only adds or overwrites: every key already present stays present. */
  lemma {:induction false} ApplyKeepsKeys(meta: map<string, string>, segs: seq<string>)
    ensures meta.Keys <= ApplySegments(meta, segs).meta.Keys
    decreases |segs|
  {
    if segs != [] {
      ApplyKeepsKeys(meta, segs[..|segs| - 1]);
    }
  }

  /** Conversely, a key and a value that hold no `": "` make a pair, with
      `": "` between them. A key may end in a colon: `"x:" + ": " + "b"`
      parses to `("x:", "b")`. */
  lemma PairOf(a: string, b: string)
    requires Count(a, ": ") == 0 && Count(b, ": ") == 0
    ensures Pair(a + ": " + b) == Some((Strip(a), Strip(b)))
  {
    var t := a + ": " + b;
    CountZeroNoAt(a, ": ");
    forall k | 0 <= k < |a|
      ensures !At(t, k, ": ")
    {
      if k + 2 <= |a| {
        assert t[k..k + 2] == a[k..k + 2];
        assert !At(a, k, ": ");
      } else {
        assert t[k + 1] == ':';
        assert k + 2 <= |t| ==> t[k..k + 2][1] == t[k + 1];
      }
    }
    SplitAtFirstOccurrence(a, ": ", b);
    SplitColonSpaceParts(b);
    SplitJoin(b, ": ");
  }

  /** A reply holding one `key: value` pair, with no comma or newline and no
      whitespace around the key or the value, writes exactly that pair. */
  lemma OnePairReply(meta: map<string, string>, key: string, value: string)
    requires key != [] && !IsSpace(key[0]) && !IsSpace(key[|key| - 1])
    requires value != [] && !IsSpace(value[0]) && !IsSpace(value[|value| - 1])
    requires forall k :: 0 <= k < |key| ==> key[k] != ',' && key[k] != '\n'
    requires forall k :: 0 <= k < |value| ==> value[k] != ',' && value[k] != '\n'
    requires Count(key, ": ") == 0 && Count(value, ": ") == 0
    ensures ApplySegments(meta, Segments(key + ": " + value)) == Applied(meta[key := value], true)
  {
    var text := key + ": " + value;
    forall k | 0 <= k < |text|
      ensures text[k] != '\n' && text[k] != ','
    {
      if k < |key| {
        assert text[k] == key[k];
      } else if k >= |key| + 2 {
        assert text[k] == value[k - |key| - 2];
      }
    }
    SegmentsOfOne(text);
    PairOf(key, value);
    StripUntrimmed(key);
    StripUntrimmed(value);
    ApplyOne(meta, text);
  }

  lemma ApplySnoc(meta: map<string, string>, segs: seq<string>, seg: string)
    ensures ApplySegments(meta, segs + [seg]) == Write(ApplySegments(meta, segs), seg)
  {
    assert (segs + [seg])[..|segs|] == segs;
  }

  lemma ApplyOne(meta: map<string, string>, seg: string)
    ensures ApplySegments(meta, [seg]) == Write(Applied(meta, true), seg)
  {
    ApplySnoc(meta, [], seg);
    assert [] + [seg] == [seg];
  }

  lemma ApplyTwo(meta: map<string, string>, seg1: string, seg2: string)
    ensures ApplySegments(meta, [seg1, seg2]) == Write(Write(Applied(meta, true), seg1), seg2)
  {
    ApplyOne(meta, seg1);
    ApplySnoc(meta, [seg1], seg2);
    assert [seg1] + [seg2] == [seg1, seg2];
  }

  // ---------------------------------------------------------------- examples

  // The segments and pairs of the example replies, one fact per lemma so that
  // each literal is unfolded on its own.

  /** Two segments that both parse write their pairs in order. */
  lemma TwoPairs(meta: map<string, string>, seg1: string, seg2: string)
    requires Pair(seg1).Some? && Pair(seg2).Some?
    ensures ApplySegments(meta, [seg1, seg2])
      == Applied(meta[Pair(seg1).value.0 := Pair(seg1).value.1][Pair(seg2).value.0 := Pair(seg2).value.1], true)
  {
    ApplyTwo(meta, seg1, seg2);
  }

  /** A reply with neither a newline nor a comma is one segment. */
  lemma SegmentsOfOne(text: string)
    requires '\n' !in text && ',' !in text
    ensures Segments(text) == [text]
  {
    SplitWithout(text, ",");
  }

  /** Two comma-separated segments in a reply without newlines. */
  lemma SegmentsOfCommaPair(a: string, b: string)
    requires '\n' !in a && '\n' !in b && ',' !in a && ',' !in b
    ensures Segments(a + "," + b) == [a, b]
  {
    assert '\n' !in a + "," + b;
    SplitAtFirst(a, ",", b);
    SplitWithout(b, ",");
  }

  /** Two newline-separated segments. */
  lemma SegmentsOfNewlinePair(a: string, b: string)
    requires '\n' !in a && '\n' !in b
    ensures Segments(a + "\n" + b) == [a, b]
  {
    assert (a + "\n" + b)[|a|] == '\n';
    SplitAtFirst(a, "\n", b);
    SplitWithout(b, "\n");
  }

  lemma SegmentsCommas()
    ensures Segments("a: 1, b: 2") == ["a: 1", " b: 2"]
  {
    assert "a: 1, b: 2" == "a: 1" + "," + " b: 2";
    SegmentsOfCommaPair("a: 1", " b: 2");
  }

  lemma SegmentsNewlines()
    ensures Segments("a: 1\nb: 2") == ["a: 1", "b: 2"]
  {
    assert "a: 1\nb: 2" == "a: 1" + "\n" + "b: 2";
    SegmentsOfNewlinePair("a: 1", "b: 2");
  }

  lemma SegmentsDuplicate()
    ensures Segments("a: 1, a: 2") == ["a: 1", " a: 2"]
  {
    assert "a: 1, a: 2" == "a: 1" + "," + " a: 2";
    SegmentsOfCommaPair("a: 1", " a: 2");
  }

  lemma SegmentsTrailingComma()
    ensures Segments("a: 1,") == ["a: 1", ""]
  {
    assert "a: 1," == "a: 1" + "," + "";
    SegmentsOfCommaPair("a: 1", "");
  }

  lemma SegmentsMixed()
    ensures Segments("a: 1, b: 2\nc: 3") == ["a: 1, b: 2", "c: 3"]
  {
    assert "a: 1, b: 2\nc: 3" == "a: 1, b: 2" + "\n" + "c: 3";
    SegmentsOfNewlinePair("a: 1, b: 2", "c: 3");
  }

  /** A blank and one non-blank character strip to that character. */
  lemma StripBlankLetter(c: char)
    requires !IsSpace(c)
    ensures Strip([' ', c]) == [c]
  {
    var s := [' ', c];
    assert s[1..] == [c];
    assert Leading([c]) == 0;
    assert Leading(s) == 1;
    assert Trailing([c]) == 0;
    assert s[1..2] == [c];
  }

  /** A one-character key, after at most one blank, then `": "` and a
      one-character value: the pair of the two characters. */
  lemma PairOfLetters(pad: string, a: char, b: char)
    requires pad == [] || pad == " "
    requires a != ':' && !IsSpace(a) && !IsSpace(b)
    ensures Pair(pad + [a] + ": " + [b]) == Some(([a], [b]))
  {
    var key := pad + [a];
    assert forall k :: 0 <= k < |key| ==> key[k] != ':';
    CountWithoutFirst(key, ": ");
    PairOf(key, [b]);
    StripUntrimmed([b]);
    if pad == [] {
      assert key == [a];
      StripUntrimmed([a]);
    } else {
      assert key == [' ', a];
      StripBlankLetter(a);
    }
  }

  lemma PairA1()
    ensures Pair("a: 1") == Some(("a", "1"))
  {
    PairOfLetters("", 'a', '1');
    assert "" + ['a'] + ": " + ['1'] == "a: 1";
  }

  lemma PairB2()
    ensures Pair("b: 2") == Some(("b", "2"))
  {
    PairOfLetters("", 'b', '2');
    assert "" + ['b'] + ": " + ['2'] == "b: 2";
  }

  lemma PairSpaceB2()
    ensures Pair(" b: 2") == Some(("b", "2"))
  {
    PairOfLetters(" ", 'b', '2');
    assert " " + ['b'] + ": " + ['2'] == " b: 2";
  }

  lemma PairSpaceA2()
    ensures Pair(" a: 2") == Some(("a", "2"))
  {
    PairOfLetters(" ", 'a', '2');
    assert " " + ['a'] + ": " + ['2'] == " a: 2";
  }

  lemma PairTwoSeparators()
    ensures Pair("a: 1, b: 2") == None
  {
    assert "a: 1, b: 2" == "a" + ": " + "1, b: 2";
    assert "1, b: 2" == "1, b" + ": " + "2";
    SplitAtFirst("a", ": ", "1, b: 2");
    SplitAtFirst("1, b", ": ", "2");
    SplitWithout("2", ": ");
  }

  /** Comma-separated pairs, with the blank after each comma stripped. */
  lemma ExampleCommas()
    ensures ApplySegments(map[], Segments("a: 1, b: 2")) == Applied(map["a" := "1", "b" := "2"], true)
  {
    SegmentsCommas();
    PairA1();
    PairSpaceB2();
    ApplyTwo(map[], "a: 1", " b: 2");
  }

  /** Newline-separated pairs give the same map. */
  lemma ExampleNewlines()
    ensures ApplySegments(map[], Segments("a: 1\nb: 2")) == Applied(map["a" := "1", "b" := "2"], true)
  {
    SegmentsNewlines();
    PairA1();
    PairB2();
    ApplyTwo(map[], "a: 1", "b: 2");
  }

  /** A repeated key keeps its last value. */
  lemma ExampleDuplicateKey()
    ensures ApplySegments(map[], Segments("a: 1, a: 2")) == Applied(map["a" := "2"], true)
  {
    SegmentsDuplicate();
    DuplicatePairs();
  }

  lemma DuplicatePairs()
    ensures ApplySegments(map[], ["a: 1", " a: 2"]) == Applied(map["a" := "2"], true)
  {
    PairA1();
    PairSpaceA2();
    SameKeyTwice(map[], "a: 1", " a: 2", "a", "1", "2");
  }

  /** Two segments with the same key: the second value is the one kept. */
  lemma SameKeyTwice(meta: map<string, string>, seg1: string, seg2: string, key: string, v1: string, v2: string)
    requires Pair(seg1) == Some((key, v1)) && Pair(seg2) == Some((key, v2))
    ensures ApplySegments(meta, [seg1, seg2]) == Applied(meta[key := v2], true)
  {
    TwoPairs(meta, seg1, seg2);
    assert meta[key := v1][key := v2] == meta[key := v2];
  }

  /** Without a space after the colon the segment does not split in two. */
  lemma ExampleNoSpace()
    ensures ApplySegments(map[], Segments("a:1")) == Applied(map[], false)
  {
    var t := "a:1";
    assert forall k :: 0 <= k < |t| ==> t[k] != '\n';
    assert '\n' !in t;
    SplitWithout("a:1", ",");
    assert "a:1"[..2] == "a:" && "a:1"[1..] == ":1";
    assert ":1"[..2] == ":1" && ":1"[1..] == "1";
    assert Split("a:1", ": ") == ["a:1"];
    ApplyOne(map[], "a:1");
  }

  /** A second `": "` in one segment gives three parts. */
  lemma ExampleTwoColons()
    ensures ApplySegments(map[], Segments("a: b: c")) == Applied(map[], false)
  {
    var t := "a: b: c";
    assert forall k :: 0 <= k < |t| ==> t[k] != '\n';
    assert '\n' !in t;
    SplitWithout("a: b: c", ",");
    assert "a: b: c" == "a" + ": " + "b: c";
    assert "b: c" == "b" + ": " + "c";
    SplitAtFirst("a", ": ", "b: c");
    SplitAtFirst("b", ": ", "c");
    SplitWithout("c", ": ");
    assert |Split(t, ": ")| == 3;
    assert Pair(t) == None;
    ApplyOne(map[], t);
  }

  /** A trailing comma leaves an empty last segment, which fails; the pair
      before it has already been written and stays. */
  lemma ExampleTrailingComma()
    ensures ApplySegments(map[], Segments("a: 1,")) == Applied(map["a" := "1"], false)
  {
    SegmentsTrailingComma();
    PairA1();
    assert Pair("") == None;
    ApplyTwo(map[], "a: 1", "");
  }

  /** A key may end in a colon: only `": "` cuts, so `"x:: b"` is the key
      `x:` and the value `b`. */
  lemma ExampleColonKey()
    ensures Pair("x:: b") == Some(("x:", "b"))
  {
    assert "x:: b" == "x:" + ": " + "b";
    assert "x:"[..2][1] == ':';
    assert Count("x:", ": ") == 0;
    assert Count("b", ": ") == 0;
    PairOf("x:", "b");
    StripUntrimmed("x:");
    StripUntrimmed("b");
  }

  /** A reply whose first segment fails writes nothing, whatever follows. */
  lemma FailingFirstSegment(meta: map<string, string>)
    ensures ApplySegments(meta, Segments("x, a: 9")) == Applied(meta, false)
  {
    assert "x, a: 9" == "x" + "," + " a: 9";
    SegmentsOfCommaPair("x", " a: 9");
    SplitWithout("x", ": ");
    assert Pair("x") == None;
    ApplyTwo(meta, "x", " a: 9");
  }

  /** The separators are never mixed: with a newline present, the
      comma-separated first line is one segment holding `": "` twice, so the
      whole reply fails before `c` is written. */
  lemma ExampleMixedSeparators()
    ensures ApplySegments(map[], Segments("a: 1, b: 2\nc: 3")) == Applied(map[], false)
  {
    SegmentsMixed();
    PairTwoSeparators();
    ApplyTwo(map[], "a: 1, b: 2", "c: 3");
  }
}
