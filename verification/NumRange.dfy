/** The sysop's lists of numbers, such as "100-150,201,333" (`str_to_numrange`, `bbs/conf.cpp`), and the editor
    commands that add and remove what such a list names.
 */
module NumRange {
  import opened NumText
  import opened TextWords
  import opened Seqs
  import opened Conference

  const GAPS := " -\t\r\n"
  const GAPS_AND_COMMA := " -\t\r\n,"

  /** Number `k` is named by one item of the list: a single number, or a range whose ends come in either order. */
  predicate NamedBy(item: string, k: int) {
    var n := |Words(item, GAPS)|;
    if n == 0 then false
    else if n == 1 then Atoi(Word(1, item, GAPS)) == k
    else
      var low, high := Atoi(Word(1, item, GAPS_AND_COMMA)), Atoi(Word(2, item, GAPS_AND_COMMA));
      low <= k <= high || high <= k <= low
  }

  predicate Named(text: string, k: int) {
    exists i :: 0 <= i < |Words(text, ",")| && NamedBy(Words(text, ",")[i], k)
  }

  /** `str_to_numrange`: the numbers below 1024 that the text names, ascending, each once. */
  method StrToNumrange(text: string) returns (list: seq<nat>)
    ensures Ascending(list) && AllBelow(list, 1024)
    ensures forall k: nat :: k < 1024 ==> (k in list <==> Named(text, k))
  {
    hide Atoi, Words;
    var intarray := new bool[1024](_ => false);
    var nNumWords := WordCount(text, ",");
    var word := 1;
    while word <= nNumWords
      invariant 1 <= word <= nNumWords + 1
      invariant forall k :: 0 <= k < 1024 ==>
        (intarray[k] <==> exists i :: 0 <= i < word - 1 && NamedBy(Words(text, ",")[i], k))
    {
      var temp := ExtractWord(word, text, ",");
      assert temp == Words(text, ",")[word - 1];
      MarkItem(temp, intarray);
      word := word + 1;
    }
    list := [];
    var loop_ := 0;
    while loop_ < 1024
      invariant 0 <= loop_ <= 1024 && Ascending(list) && AllBelow(list, loop_)
      invariant forall k: nat :: k < loop_ ==> (k in list <==> intarray[k])
    {
      if intarray[loop_] {
        list := list + [loop_];
      }
      loop_ := loop_ + 1;
    }
  }

  /** The switch on one item: its numbers are marked and no mark is taken away. */
  method MarkItem(temp: string, intarray: array<bool>)
    requires intarray.Length == 1024
    modifies intarray
    ensures forall k :: 0 <= k < 1024 ==> (intarray[k] <==> old(intarray[k]) || NamedBy(temp, k))
  {
    hide Atoi, Words;
    var nRangeCount := WordCount(temp, GAPS);
    if nRangeCount == 0 {
    } else if nRangeCount == 1 {
      var s := ExtractWord(1, temp, GAPS);
      var num := Atoi(s);
      if num < 1024 && num >= 0 {
        intarray[num] := true;
      }
    } else {
      var s1 := ExtractWord(1, temp, GAPS_AND_COMMA);
      var s2 := ExtractWord(2, temp, GAPS_AND_COMMA);
      var nLowNumber, nHighNumber := Atoi(s1), Atoi(s2);
      if nLowNumber > nHighNumber {
        nLowNumber, nHighNumber := nHighNumber, nLowNumber;
      }
      var i := if nLowNumber > 0 then nLowNumber else 0;
      ghost var first := i;
      var last := if nHighNumber < 1023 then nHighNumber else 1023;
      while i <= last
        invariant first <= i
        invariant forall k :: 0 <= k < 1024 ==> (intarray[k] <==> old(intarray[k]) || (first <= k < i && k <= last))
      {
        intarray[i] := true;
        i := i + 1;
      }
    }
  }

  /** The 'A' command: a conference that is not full gets exactly the areas the text names and it lacks, after those
      it has. */
  method AddFromText(c: ConfRec, text: string, areas: nat, step: nat)
    requires c.Valid() && step > 0 && areas <= 0x1_0000
    modifies c, c.subs
    ensures c.Valid()
    ensures areas < 1 || |old(c.Members())| >= FULL ==> c.Members() == old(c.Members())
    ensures areas >= 1 && |old(c.Members())| < FULL ==>
      && old(c.Members()) <= c.Members()
      && (forall k: subconf :: k in c.Members() <==>
            k in old(c.Members()) || (k < 1024 && k < areas && Named(text, k)))
  {
    hide AddList, NewOnes, Areas;
    var intlist := StrToNumrange(text);
    ghost var s := c.Members();
    c.AddSubConf(intlist, areas, step);
    if areas >= 1 && |s| < FULL {
      AddStopsLate(s, intlist, areas);
      forall k: subconf
        ensures k in c.Members() <==> k in s || (k < 1024 && k < areas && Named(text, k))
      {
        NamedInList(intlist, text, k);
        assert k in NewOnes(s, Areas(intlist, areas)) <==> k in Areas(intlist, areas) && k !in s;
      }
    }
  }

  /** The 'R' command: exactly the areas the text names leave the conference; the others keep their order. */
  method RemoveFromText(c: ConfRec, text: string, areas: nat)
    requires c.Valid() && Distinct(c.Members()) && AllBelow(c.Members(), areas)
    modifies c, c.subs
    ensures c.Valid()
    ensures c.Members() == NotNamed(old(c.Members()), text)
  {
    hide DelList, WithoutAll, Areas;
    var intlist := StrToNumrange(text);
    ghost var s := c.Members();
    c.DelSubConf(intlist, areas);
    DelStopsLate(s, intlist, areas);
    WithoutNamed(s, intlist, text, areas);
  }

  /** The members that the text does not name, in their order. */
  function NotNamed(s: seq<subconf>, text: string): seq<subconf> {
    if s == [] then []
    else if s[0] < 1024 && Named(text, s[0]) then NotNamed(s[1..], text)
    else [s[0]] + NotNamed(s[1..], text)
  }

  lemma {:induction false} WithoutNamed(s: seq<subconf>, list: seq<nat>, text: string, areas: nat)
    requires AllBelow(s, areas) && AllBelow(list, 1024)
    requires forall j: nat :: j < 1024 ==> (j in list <==> Named(text, j))
    ensures WithoutAll(s, Areas(list, areas)) == NotNamed(s, text)
  {
    hide Named;
    if s != [] {
      NamedInList(list, text, s[0]);
      WithoutNamed(s[1..], list, text, areas);
    }
  }

  lemma NamedInList(list: seq<nat>, text: string, k: nat)
    requires AllBelow(list, 1024)
    requires forall j: nat :: j < 1024 ==> (j in list <==> Named(text, j))
    ensures k in list <==> k < 1024 && Named(text, k)
  {
  }

  // ----- a list that is printed and read -----

  datatype Span = Span(first: nat, last: nat)

  function SpanText(r: Span): string {
    if r.first == r.last then Dec(r.first) else Dec(r.first) + ("-" + Dec(r.last))
  }

  /** Ranges and single numbers separated by commas. */
  function ListText(rs: seq<Span>): string {
    if rs == [] then "" else SpanText(rs[0]) + (if |rs| == 1 then "" else "," + ListText(rs[1..]))
  }

  function SpanTexts(rs: seq<Span>): (r: seq<string>)
    ensures |r| == |rs| && forall i :: 0 <= i < |r| ==> r[i] == SpanText(rs[i])
  {
    if rs == [] then [] else [SpanText(rs[0])] + SpanTexts(rs[1..])
  }

  lemma DigitsAreNoGaps(n: nat)
    ensures forall i :: 0 <= i < |Dec(n)| ==> Dec(n)[i] !in GAPS && Dec(n)[i] !in GAPS_AND_COMMA && Dec(n)[i] !in ","
  {
    hide Dec;
    var s := Dec(n);
    assert forall i :: 0 <= i < |s| ==> IsDigit(s[i]);
  }

  lemma NoWordsLeft(delims: string)
    ensures Words("", delims) == []
  {
  }

  lemma SpanWords(r: Span, delims: string)
    requires delims == GAPS || delims == GAPS_AND_COMMA
    ensures Words(SpanText(r), delims) == if r.first == r.last then [Dec(r.first)] else [Dec(r.first), Dec(r.last)]
  {
    hide Dec, Words;
    DigitsAreNoGaps(r.first);
    DigitsAreNoGaps(r.last);
    NoWordsLeft(delims);
    if r.first == r.last {
      FirstWord(Dec(r.first), "", delims);
      assert Dec(r.first) + "" == Dec(r.first);
    } else {
      FirstWord(Dec(r.first), "-" + Dec(r.last), delims);
      SkipOne('-', Dec(r.last), delims);
      FirstWord(Dec(r.last), "", delims);
      assert Dec(r.last) + "" == Dec(r.last);
    }
  }

  lemma SpanNames(r: Span, k: int)
    ensures NamedBy(SpanText(r), k) <==> r.first <= k <= r.last || r.last <= k <= r.first
  {
    hide Dec, Words, Atoi, SpanText;
    SpanWords(r, GAPS);
    SpanWords(r, GAPS_AND_COMMA);
    AtoiDec(r.first);
    AtoiDec(r.last);
  }

  lemma SpanIsOneWord(r: Span)
    ensures SpanText(r) != "" && forall i :: 0 <= i < |SpanText(r)| ==> SpanText(r)[i] !in ","
  {
    hide Dec;
    DigitsAreNoGaps(r.first);
    DigitsAreNoGaps(r.last);
  }

  lemma {:induction false} ListWords(rs: seq<Span>)
    ensures Words(ListText(rs), ",") == SpanTexts(rs)
  {
    hide Words, SpanText;
    if rs == [] {
      NoWordsLeft(",");
    } else {
      SpanIsOneWord(rs[0]);
      ListWords(rs[1..]);
      if |rs| == 1 {
        FirstWord(SpanText(rs[0]), "", ",");
        NoWordsLeft(",");
      } else {
        FirstWord(SpanText(rs[0]), "," + ListText(rs[1..]), ",");
        SkipOne(',', ListText(rs[1..]), ",");
      }
    }
  }

  /** A printed list of ranges names exactly the numbers in one of the ranges, whichever way round its ends are. */
  lemma PrintedListNames(rs: seq<Span>, k: int)
    ensures Named(ListText(rs), k) <==>
      exists i :: 0 <= i < |rs| && (rs[i].first <= k <= rs[i].last || rs[i].last <= k <= rs[i].first)
  {
    hide Words, SpanText, NamedBy, ListText;
    ListWords(rs);
    var w := SpanTexts(rs);
    forall i | 0 <= i < |rs|
      ensures NamedBy(w[i], k) <==> rs[i].first <= k <= rs[i].last || rs[i].last <= k <= rs[i].first
    {
      SpanNames(rs[i], k);
    }
    if i :| 0 <= i < |rs| && (rs[i].first <= k <= rs[i].last || rs[i].last <= k <= rs[i].first) {
      assert NamedBy(Words(ListText(rs), ",")[i], k);
    }
  }
}
