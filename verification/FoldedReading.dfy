/** Reading a folded text back: a newline ends a line, and the count follows its last space. */
module FoldedReading {
  import opened Collections
  import opened CycleKeys
  import opened FoldedStacks
  import opened Options

  datatype Folded = Folded(path: string, count: nat)

  /** Where the character first occurs, or the length. */
  function FirstAt(text: string, c: char): (n: nat)
    ensures n <= |text|
  {
    if text == "" || text[0] == c then 0 else 1 + FirstAt(text[1..], c)
  }

  /** Where it last occurs, or -1. */
  function LastAt(text: string, c: char): (n: int)
    ensures -1 <= n < |text|
  {
    if text == "" then -1
    else if text[|text| - 1] == c then |text| - 1
    else LastAt(text[..|text| - 1], c)
  }

  function ReadLine(line: string): Option<Folded> {
    var i := LastAt(line, ' ');
    if i < 0 || i + 1 == |line| || exists c :: c in line[i + 1..] && !IsDigit(c) then None
    else Some(Folded(line[..i], NumberOf(line[i + 1..])))
  }

  function ReadText(text: string): Option<seq<Folded>>
    decreases |text|
  {
    if text == "" then Some([])
    else
      var n := FirstAt(text, '\n');
      if n == |text| then None
      else
        match ReadLine(text[..n])
        case None => None
        case Some(line) =>
          match ReadText(text[n + 1..])
          case None => None
          case Some(rest) => Some([line] + rest)
  }

  lemma {:induction false} FirstIs(text: string, c: char, n: nat)
    requires n < |text| && text[n] == c && c !in text[..n]
    ensures FirstAt(text, c) == n
  {
    if n > 0 {
      assert text[0] in text[..n] && text[1..][..n - 1] == text[..n][1..];
      FirstIs(text[1..], c, n - 1);
    }
  }

  lemma {:induction false} LastIs(text: string, c: char, n: nat)
    requires n < |text| && text[n] == c && c !in text[n + 1..]
    ensures LastAt(text, c) == n
  {
    var last := |text| - 1;
    if n < last {
      assert text[last] in text[n + 1..] && text[..last][n + 1..] == text[n + 1..][..last - n - 1];
      LastIs(text[..last], c, n);
    }
  }

  lemma LineReads(path: string, count: nat)
    ensures ReadLine(path + " " + Digits(count)) == Some(Folded(path, count))
  {
    var digits := Digits(count);
    var line := path + " " + digits;
    DigitsWriteOut(count);
    assert line[|path|] == ' ' && line[|path| + 1..] == digits && line[..|path|] == path;
    LastIs(line, ' ', |path|);
  }

  function Listing(sorted: seq<string>, counts: map<string, nat>): (r: seq<Folded>)
    ensures |r| == |sorted| && forall k :: 0 <= k < |r| ==> r[k] == Folded(sorted[k], CountAt(counts, sorted[k]))
  {
    seq(|sorted|, k requires 0 <= k < |sorted| => Folded(sorted[k], CountAt(counts, sorted[k])))
  }

  /** One line put before a text is read before it. */
  lemma LineThenText(path: string, count: nat, rest: string)
    requires '\n' !in path && ReadText(rest).Some?
    ensures ReadText(CountedLine(path, count) + rest) == Some([Folded(path, count)] + ReadText(rest).value)
  {
    var line, text := path + " " + Digits(count), CountedLine(path, count) + rest;
    LineReads(path, count);
    assert '\n' !in line by {
      assert !IsDigit('\n') && !IsDigit(' ');
    }
    assert text[..|line|] == line && text[|line|] == '\n' && text[|line| + 1..] == rest;
    FirstIs(text, '\n', |line|);
  }

  lemma Regrouped(a: string, b: string, c: string)
    ensures (a + b) + c == a + (b + c)
  {
  }

  lemma {:induction false} RenderCons(sorted: seq<string>, counts: map<string, nat>)
    requires sorted != []
    ensures Render(sorted, counts)
         == CountedLine(sorted[0], CountAt(counts, sorted[0])) + Render(sorted[1..], counts)
  {
    if |sorted| > 1 {
      var n := |sorted| - 1;
      RenderCons(sorted[..n], counts);
      assert sorted[..n][1..] == sorted[1..][..n - 1] && sorted[1..][n - 1] == sorted[n];
      Regrouped(CountedLine(sorted[0], CountAt(counts, sorted[0])), Render(sorted[1..][..n - 1], counts),
                CountedLine(sorted[n], CountAt(counts, sorted[n])));
    } else {
      JustOne(sorted, counts);
    }
  }

  lemma JustOne(sorted: seq<string>, counts: map<string, nat>)
    requires |sorted| == 1
    ensures Render(sorted, counts) == CountedLine(sorted[0], CountAt(counts, sorted[0])) + Render(sorted[1..], counts)
  {
    var line := CountedLine(sorted[0], CountAt(counts, sorted[0]));
    assert Render(sorted[..0], counts) == Render(sorted[1..], counts) == "";
    assert "" + line == line + "";
  }

  lemma {:induction false} RenderReads(sorted: seq<string>, counts: map<string, nat>)
    requires forall path :: path in sorted ==> '\n' !in path
    ensures ReadText(Render(sorted, counts)) == Some(Listing(sorted, counts))
  {
    if sorted == [] {
      assert Listing(sorted, counts) == [];
    } else {
      assert sorted[0] in sorted && forall path :: path in sorted[1..] ==> path in sorted;
      RenderReads(sorted[1..], counts);
      RenderCons(sorted, counts);
      LineThenText(sorted[0], CountAt(counts, sorted[0]), Render(sorted[1..], counts));
      ListingCons(sorted, counts);
    }
  }

  lemma ListingCons(sorted: seq<string>, counts: map<string, nat>)
    requires sorted != []
    ensures Listing(sorted, counts) == [Folded(sorted[0], CountAt(counts, sorted[0]))] + Listing(sorted[1..], counts)
  {
  }

  /** Of paths without newlines the text reads back as the counts, in the order of the paths. */
  lemma FoldedReadsBack(text: string, counts: map<string, nat>)
    requires Prints(text, counts) && forall path :: path in counts ==> '\n' !in path
    ensures ReadText(text).Some?
    ensures var lines := ReadText(text).value;
      && (forall k :: 0 <= k < |lines| ==> lines[k].path in counts && lines[k].count == counts[lines[k].path])
      && (forall path :: path in counts ==> exists k :: 0 <= k < |lines| && lines[k].path == path)
      && (forall i, j :: 0 <= i < j < |lines| ==> lines[i].path != lines[j].path)
  {
    var sorted :| KeysInOrder(sorted, counts) && text == Render(sorted, counts);
    RenderReads(sorted, counts);
    var lines := ReadText(text).value;
    forall path | path in counts
      ensures exists k :: 0 <= k < |lines| && lines[k].path == path
    {
      var k :| 0 <= k < |sorted| && sorted[k] == path;
      assert lines[k].path == path;
    }
    forall i, j | 0 <= i < j < |lines|
      ensures lines[i].path != lines[j].path
    {
      StringAsymmetric(sorted[i], sorted[j]);
    }
  }
}
