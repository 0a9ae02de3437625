/** The conference file (`save_confs` and `read_conferences`, `bbs/conf.cpp`): a text printer and its reader. */
module ConfFile {
  import opened NumText
  import opened TextWords
  import opened Seqs
  import opened Conference
  import opened ConfMembers
  import opened ArWord

  /** A conference as it is stored. `subs` is its member list. */
  datatype Conf = Conf(designator: char, name: string, status: nat, minsl: nat, maxsl: nat, mindsl: nat, maxdsl: nat,
                       minage: nat, maxage: nat, minbps: nat, sex: nat, ar: bv16, dar: bv16, subs: seq<subconf>)

  /** What the reader starts from: memory set to zero. */
  const ZERO_CONF := Conf('\0', "", 0, 0, 0, 0, 0, 0, 0, 0, 0, 0, 0, [])

  const HEADER := HEADER1 + HEADER2 + HEADER3 + HEADER4
  const HEADER1 := "/* !!!-!!! Do not "
  const HEADER2 := "edit this file - u"
  const HEADER3 := "se WWIV's conf edi"
  const HEADER4 := "tor! !!!-!!! */"
  const MAX_CONFERENCES := 26

  // ----- the printer -----

  function NameLine(c: Conf): string { ['~', c.designator, ' '] + c.name }

  function NumberLine(c: Conf): string {
    "!" + (Dec(c.status) + (" " + (Dec(c.minsl) + (" " + (Dec(c.maxsl) + (" " + (Dec(c.mindsl) + (" "
    + (Dec(c.maxdsl) + (" " + (Dec(c.minage) + (" " + (Dec(c.maxage) + (" " + (Dec(c.minbps) + (" "
    + (Dec(c.sex) + (" " + (ArString(c.ar) + (" " + ArString(c.dar)))))))))))))))))))))
  }

  function MemberLine(c: Conf): string { "@" + MemberText(c.subs) }

  function Lines(c: Conf): seq<string> { [NameLine(c), NumberLine(c), MemberLine(c), ""] }

  /** Lines, each ended by a line feed. */
  function Joined(lines: seq<string>): string {
    if lines == [] then "" else lines[0] + "\n" + Joined(lines[1..])
  }

  function AllLines(cs: seq<Conf>): seq<string> {
    if cs == [] then [] else Lines(cs[0]) + AllLines(cs[1..])
  }

  function FileText(cs: seq<Conf>): string { Joined([HEADER, ""] + AllLines(cs)) }

  /** The list that is saved: with a record given, it goes in front of number `which`. */
  function Saved(cs: seq<Conf>, which: int, c: Option<Conf>): seq<Conf> {
    if c.Some? && 0 <= which <= |cs| then InsertAt(cs, which, c.value) else cs
  }

  /** `save_confs`. */
  method SaveConfs(cp: seq<Conf>, whichnum: int, c: Option<Conf>) returns (text: string)
    ensures text == FileText(Saved(cp, whichnum, c))
  {
    hide Lines, Joined, FileText, Saved;
    var num := |cp|;
    var num1 := num;
    if whichnum == num {
      num1 := num1 + 1;
    }
    text := Joined([HEADER, ""]);
    NothingSaved();
    var i := 0;
    while i < num1
      invariant 0 <= i <= num1
      invariant text == FileText(SavedUpTo(cp, whichnum, c, i))
    {
      ghost var done := SavedUpTo(cp, whichnum, c, i);
      if whichnum == i {
        if c.Some? {
          text := text + Joined(Lines(c.value));
          SaveOneMore(done, c.value);
          done := done + [c.value];
        }
      }
      if i < num {
        text := text + Joined(Lines(cp[i]));
        SaveOneMore(done, cp[i]);
      }
      i := i + 1;
    }
    SavedIs(cp, whichnum, c);
  }

  /** What the first `i` rounds of the loop have written. */
  function SavedUpTo(cp: seq<Conf>, which: int, c: Option<Conf>, i: nat): seq<Conf> {
    if i == 0 then []
    else
      var s := SavedUpTo(cp, which, c, i - 1);
      var t := if which == i - 1 && c.Some? then s + [c.value] else s;
      if i <= |cp| then t + [cp[i - 1]] else t
  }

  lemma SavedIs(cp: seq<Conf>, which: int, c: Option<Conf>)
    ensures SavedUpTo(cp, which, c, if which == |cp| then |cp| + 1 else |cp|) == Saved(cp, which, c)
  {
    SavedPrefix(cp, which, c, |cp|);
    assert cp[..|cp|] == cp;
  }

  lemma {:induction false} SavedPrefix(cp: seq<Conf>, which: int, c: Option<Conf>, i: nat)
    requires i <= |cp|
    ensures SavedUpTo(cp, which, c, i)
         == if c.Some? && 0 <= which < i then InsertAt(cp[..i], which, c.value) else cp[..i]
  {
    hide InsertAt;
    if i > 0 {
      SavedPrefix(cp, which, c, i - 1);
      assert cp[..i] == cp[..i - 1] + [cp[i - 1]];
      if c.Some? && 0 <= which < i {
        InsertThenMore(cp[..i - 1], which, c.value, cp[i - 1]);
      }
    }
  }

  lemma InsertThenMore(s: seq<Conf>, n: nat, c: Conf, x: Conf)
    requires n <= |s|
    ensures n < |s| ==> InsertAt(s + [x], n, c) == InsertAt(s, n, c) + [x]
    ensures n == |s| ==> InsertAt(s + [x], n, c) == (s + [c]) + [x]
  {
    assert (s + [x])[..n] == s[..n] && (s + [x])[n..] == s[n..] + [x];
  }

  function Min(a: int, b: int): int { if a < b then a else b }

  lemma {:induction false} JoinedAppend(a: seq<string>, b: seq<string>)
    ensures Joined(a + b) == Joined(a) + Joined(b)
  {
    if a == [] {
      assert a + b == b;
    } else {
      assert (a + b)[1..] == a[1..] + b;
      JoinedAppend(a[1..], b);
    }
  }

  lemma {:induction false} AllLinesAppend(a: seq<Conf>, c: Conf)
    ensures AllLines(a + [c]) == AllLines(a) + Lines(c)
  {
    hide Lines;
    if a == [] {
      assert a + [c] == [c];
      assert AllLines([c]) == Lines(c) + AllLines([]);
    } else {
      assert (a + [c])[1..] == a[1..] + [c];
      AllLinesAppend(a[1..], c);
    }
  }

  lemma NothingSaved()
    ensures FileText([]) == Joined([HEADER, ""])
  {
    hide Joined;
    assert [HEADER, ""] + AllLines([]) == [HEADER, ""];
  }

  lemma SaveOneMore(cs: seq<Conf>, c: Conf)
    ensures FileText(cs + [c]) == FileText(cs) + Joined(Lines(c))
  {
    hide Joined, Lines, AllLines;
    AllLinesAppend(cs, c);
    assert [HEADER, ""] + AllLines(cs + [c]) == ([HEADER, ""] + AllLines(cs)) + Lines(c);
    JoinedAppend([HEADER, ""] + AllLines(cs), Lines(c));
  }

  // ----- the reader -----

  /** `fgets`: the characters up to and including a line feed, at most `room` of them. */
  function LineEnd(s: string, room: nat): (n: nat)
    ensures n <= |s| && n <= room
    ensures s != "" && room > 0 ==> n > 0
  {
    if s == "" || room == 0 then 0 else if s[0] == '\n' then 1 else 1 + LineEnd(s[1..], room - 1)
  }

  /** `StringToUnsignedShort` and `StringToUnsignedChar`: `stoul`, cut off at the largest value of the type; text
      that is no number gives 0. */
  function Unsigned(s: string, limit: nat): (n: nat)
    ensures n <= limit
  {
    var t := if s != "" && (s[0] == '-' || s[0] == '+') then s[1..] else s;
    if t == "" || !IsDigit(t[0]) then 0
    else
      var v := Digits(t, 0);
      if v >= 0x1_0000_0000_0000_0000 || v == 0 then 0
      else if s[0] == '-' then Min(0x1_0000_0000_0000_0000 - v, limit)
      else Min(v, limit)
  }

  const BYTE := 255
  const SHORT := 65535

  function Numbers(c: Conf, w: seq<string>): Conf
    requires |w| == 11
  {
    c.(status := if |w[0]| >= 2 then Unsigned(w[0][1..], SHORT) else c.status,
       minsl := Unsigned(w[1], BYTE), maxsl := Unsigned(w[2], BYTE), mindsl := Unsigned(w[3], BYTE),
       maxdsl := Unsigned(w[4], BYTE), minage := Unsigned(w[5], BYTE), maxage := Unsigned(w[6], BYTE),
       minbps := Unsigned(w[7], SHORT), sex := Unsigned(w[8], BYTE), ar := ArFlags(w[9]), dar := ArFlags(w[10]))
  }

  /** The name goes into an array of 61 characters. */
  function Cut(name: string): string { if |name| > 61 then name[..61] else name }

  /** The conferences read so far, and the one whose lines are being read. */
  datatype Reading = Reading(done: seq<Conf>, cur: Conf)

  /** One line of the file. */
  function Feed(r: Reading, ls: string, max: nat): Reading {
    var w := Words(ls, WHITE);
    if w == [] || w[0] == "" then r
    else
      var ts := w[0];
      if ts[0] == '~' then
        if |w| > 1 && |ts| > 1 && |ls| > 3 && Words(ls[3..], "\r\n") != [] then
          r.(cur := r.cur.(designator := ts[1], name := Cut(Words(ls[3..], "\r\n")[0])))
        else r
      else if ts[0] == '!' then
        if r.cur.designator == '\0' || |w| != 11 then r else r.(cur := Numbers(r.cur, w))
      else if ts[0] == '@' then
        if r.cur.designator == '\0' then r
        else Reading(r.done + [r.cur.(subs := MembersOf(w, true, max))], ZERO_CONF)
      else r
  }

  function FeedText(r: Reading, text: string, max: nat): Reading
    decreases |text|
  {
    if text == "" || |r.done| >= MAX_CONFERENCES then r
    else
      var n := LineEnd(text, MAX_CONF_LINE - 1);
      FeedText(Feed(r, text[..n], max), text[n..], max)
  }

  /** The lines that begin with a tilde. */
  function NumConferences(text: string): nat
    decreases |text|
  {
    if text == "" then 0
    else
      var n := LineEnd(text, MAX_CONF_LINE - 1);
      (if text[0] == '~' then 1 else 0) + NumConferences(text[n..])
  }

  function ZeroConfs(n: nat): (r: seq<Conf>)
    ensures |r| == n && forall i :: 0 <= i < n ==> r[i] == ZERO_CONF
  {
    seq(n, _ => ZERO_CONF)
  }

  /** The array that is read: as many records as there are lines that begin with a tilde, zero where nothing was
      read. */
  function Loaded(text: string, max: nat): seq<Conf> {
    var nc := NumConferences(text);
    var done := FeedText(Reading([], ZERO_CONF), text, max).done;
    if nc < 1 then [] else if |done| < nc then done + ZeroConfs(nc - |done|) else done
  }

  /** `get_num_conferences`. */
  method GetNumConferences(text: string) returns (i: nat)
    ensures i == NumConferences(text)
  {
    hide LineEnd;
    i := 0;
    var rest := text;
    while rest != ""
      invariant i + NumConferences(rest) == NumConferences(text)
      decreases |rest|
    {
      var n := LineEnd(rest, MAX_CONF_LINE - 1);
      if rest[0] == '~' {
        i := i + 1;
      }
      rest := rest[n..];
    }
  }

  /** `read_conferences`. */
  method ReadConferences(text: string, max: nat) returns (nc: nat, conferences: seq<Conf>)
    ensures nc == NumConferences(text) && conferences == Loaded(text, max)
  {
    nc := GetNumConferences(text);
    if nc < 1 {
      return nc, [];
    }
    conferences := ReadLines(text, max);
    if |conferences| < nc {
      conferences := conferences + ZeroConfs(nc - |conferences|);
    }
  }

  /** The loop of `read_conferences`. */
  method ReadLines(text: string, max: nat) returns (conferences: seq<Conf>)
    ensures conferences == FeedText(Reading([], ZERO_CONF), text, max).done
  {
    hide LineEnd, Words, MembersOf, Numbers;
    var cur := ZERO_CONF;
    conferences := [];
    var rest := text;
    while rest != "" && |conferences| < MAX_CONFERENCES
      invariant FeedText(Reading(conferences, cur), rest, max) == FeedText(Reading([], ZERO_CONF), text, max)
      decreases |rest|
    {
      var n := LineEnd(rest, MAX_CONF_LINE - 1);
      var ls := rest[..n];
      var w := Words(ls, WHITE);
      if w != [] {
        var ts := w[0];
        if ts != "" {
          if ts[0] == '~' {
            if |w| > 1 && |ts| > 1 && |ls| > 3 {
              var bs := Words(ls[3..], "\r\n");
              if bs != [] {
                cur := cur.(designator := ts[1], name := Cut(bs[0]));
              }
            }
          } else if ts[0] == '!' {
            if cur.designator != '\0' && |w| == 11 {
              cur := Numbers(cur, w);
            }
          } else if ts[0] == '@' {
            if cur.designator != '\0' {
              var subs := ReadMembers(w, max);
              conferences := conferences + [cur.(subs := subs)];
              cur := ZERO_CONF;
            }
          }
        }
      }
      rest := rest[n..];
    }
  }

  // ----- the member line fits the line buffer -----

  /** Distinct numbers below 1024 take at most 4011 characters with the at-sign, so the line fits the buffer. */
  lemma MemberLineFits(c: Conf)
    requires Distinct(c.subs) && AllBelow(c.subs, 1024)
    ensures |MemberLine(c)| <= 4011
  {
    hide MemberText, AllNumbersLength;
    MemberTextBound(c.subs, 1024);
    AllNumbersLengthIs(1024);
  }

  // ----- reading back what was saved -----

  /** A record the editor can make, for `max` areas. */
  ghost predicate Good(c: Conf, max: nat) {
    && c.designator !in WHITE && c.designator != '\0'
    && GoodName(c.name)
    && c.status <= SHORT && c.minbps <= SHORT
    && c.minsl <= BYTE && c.maxsl <= BYTE && c.mindsl <= BYTE && c.maxdsl <= BYTE
    && c.minage <= BYTE && c.maxage <= BYTE && c.sex <= BYTE
    && AllBelow(c.subs, max) && max <= 0x1_0000
  }

  /** At most sixty characters on one line. */
  predicate GoodName(name: string) {
    |name| <= 60 && forall i :: 0 <= i < |name| ==> name[i] !in "\r\n"
  }

  /** Some character of the name is not blank. */
  predicate Named(c: Conf) {
    exists i :: 0 <= i < |c.name| && c.name[i] !in WHITE
  }

  predicate OneLine(line: string) {
    |line| < MAX_CONF_LINE - 1 && NoFeed(line)
  }

  predicate NoFeed(s: string) { forall i :: 0 <= i < |s| ==> s[i] != '\n' }

  /** What the reader gets of a line first: with its line feed, if there is room for it. */
  function Piece(line: string): string {
    if |line| < MAX_CONF_LINE - 1 then line + "\n" else line[..MAX_CONF_LINE - 1]
  }

  /** Digits and blanks: such text changes nothing when the reader gets it as a line of its own. */
  predicate Inert(s: string) { forall i :: 0 <= i < |s| ==> IsDigit(s[i]) || s[i] == ' ' }

  /** A line of which nothing after the first piece matters. */
  predicate Whole(line: string) {
    NoFeed(line) && (|line| >= MAX_CONF_LINE - 1 ==> Inert(line[MAX_CONF_LINE - 1..]))
  }

  /** The file, if each line is taken for its first piece. */
  function FeedLines(r: Reading, lines: seq<string>, max: nat): Reading
    decreases |lines|
  {
    if lines == [] || |r.done| >= MAX_CONFERENCES then r
    else FeedLines(Feed(r, Piece(lines[0]), max), lines[1..], max)
  }

  lemma {:induction false} LineEndIs(line: string, rest: string, room: nat)
    requires |line| < room && forall i :: 0 <= i < |line| ==> line[i] != '\n'
    ensures LineEnd(line + "\n" + rest, room) == |line| + 1
    decreases |line|
  {
    var s := line + "\n" + rest;
    if line != "" {
      assert s[1..] == line[1..] + "\n" + rest;
      assert s[0] == line[0];
      LineEndIs(line[1..], rest, room - 1);
    }
  }

  lemma {:induction false} LineEndFull(s: string, room: nat)
    requires room <= |s| && NoFeed(s[..room])
    ensures LineEnd(s, room) == room
    decreases room
  {
    if room > 0 {
      assert s[..room][0] == s[0];
      assert s[1..][..room - 1] == s[..room][1..];
      LineEndFull(s[1..], room - 1);
    }
  }

  /** The first chunk of a text that starts with this line. */
  lemma FirstPiece(line: string, rest: string)
    requires NoFeed(line)
    ensures var text := line + "\n" + rest; var n := LineEnd(text, MAX_CONF_LINE - 1);
      && text[..n] == Piece(line)
      && text[n..] == if |line| < MAX_CONF_LINE - 1 then rest else line[MAX_CONF_LINE - 1..] + "\n" + rest
  {
    hide LineEnd;
    var text := line + "\n" + rest;
    if |line| < MAX_CONF_LINE - 1 {
      LineEndIs(line, rest, MAX_CONF_LINE - 1);
    } else {
      assert text[..MAX_CONF_LINE - 1] == line[..MAX_CONF_LINE - 1];
      LineEndFull(text, MAX_CONF_LINE - 1);
    }
  }

  lemma {:induction false} FirstAfterDelims(s: string)
    ensures SkipDelims(s, WHITE) != "" ==> SkipDelims(s, WHITE)[0] in s
  {
    if s != "" && s[0] in WHITE { FirstAfterDelims(s[1..]); }
  }

  lemma FirstOfInert(s: string)
    requires forall i :: 0 <= i < |s| ==> IsDigit(s[i]) || s[i] == ' ' || s[i] == '\n'
    ensures var w := Words(s, WHITE); w != [] ==> w[0] != "" && IsDigit(w[0][0])
  {
    FirstAfterDelims(s);
  }

  /** Digits and blanks at the start of the text are passed over, in as many chunks as they take. */
  lemma {:induction false} InertIsSkipped(r: Reading, t: string, rest: string, max: nat)
    requires Inert(t)
    ensures FeedText(r, t + "\n" + rest, max) == FeedText(r, rest, max)
    ensures NumConferences(t + "\n" + rest) == NumConferences(rest)
    decreases |t|
  {
    hide LineEnd, Words, Numbers, MembersOf, Unsigned;
    var text := t + "\n" + rest;
    FirstPiece(t, rest);
    FirstOfInert(Piece(t));
    assert text[0] == if t == "" then '\n' else t[0];
    assert Feed(r, Piece(t), max) == r;
    if |t| >= MAX_CONF_LINE - 1 {
      InertIsSkipped(r, t[MAX_CONF_LINE - 1..], rest, max);
    }
  }

  lemma {:induction false} FeedJoined(r: Reading, lines: seq<string>, max: nat)
    requires forall i :: 0 <= i < |lines| ==> Whole(lines[i])
    ensures FeedText(r, Joined(lines), max) == FeedLines(r, lines, max)
    decreases |lines|
  {
    hide Feed, LineEnd, Piece;
    if lines != [] && |r.done| < MAX_CONFERENCES {
      var line := lines[0];
      assert Whole(line);
      var rest := Joined(lines[1..]);
      FirstPiece(line, rest);
      var next := Feed(r, Piece(line), max);
      if |line| >= MAX_CONF_LINE - 1 {
        InertIsSkipped(next, line[MAX_CONF_LINE - 1..], rest, max);
      }
      FeedJoined(next, lines[1..], max);
    }
  }

  // ----- the words of each line -----

  /** A printed number is read back up to the largest value of the type, and as that value beyond it. */
  lemma UnsignedCuts(n: nat, limit: nat)
    requires n < 0x1_0000_0000_0000_0000
    ensures Unsigned(Dec(n), limit) == if n <= limit then n else limit
  {
    hide Dec, Digits;
    DigitsOfDec(n);
    assert IsDigit(Dec(n)[0]);
  }

  lemma UnsignedOfDec(n: nat, limit: nat)
    requires n <= limit < 0x1_0000_0000
    ensures Unsigned(Dec(n), limit) == n
  {
    UnsignedCuts(n, limit);
  }

  /** The words of the number line from the second on. */
  function NumberWords(c: Conf): seq<string> {
    [Dec(c.minsl)] + ([Dec(c.maxsl)] + ([Dec(c.mindsl)] + ([Dec(c.maxdsl)] + ([Dec(c.minage)] + ([Dec(c.maxage)]
    + ([Dec(c.minbps)] + ([Dec(c.sex)] + ([ArString(c.ar)] + [ArString(c.dar)]))))))))
  }

  lemma NumberLineWords(c: Conf)
    ensures Words(NumberLine(c) + "\n", WHITE) == ["!" + Dec(c.status)] + NumberWords(c)
  {
    hide Dec, ArString, Words;
    ArStringShape(c.ar);
    ArStringShape(c.dar);
    var t10 := ArString(c.dar) + "\n";
    LastWord(ArString(c.dar));
    var t9 := ArString(c.ar) + (" " + t10);
    NextWord(ArString(c.ar), t10);
    var t8 := Dec(c.sex) + (" " + t9);
    NextNumber(c.sex, t9);
    var t7 := Dec(c.minbps) + (" " + t8);
    NextNumber(c.minbps, t8);
    var t6 := Dec(c.maxage) + (" " + t7);
    NextNumber(c.maxage, t7);
    var t5 := Dec(c.minage) + (" " + t6);
    NextNumber(c.minage, t6);
    var t4 := Dec(c.maxdsl) + (" " + t5);
    NextNumber(c.maxdsl, t5);
    var t3 := Dec(c.mindsl) + (" " + t4);
    NextNumber(c.mindsl, t4);
    var t2 := Dec(c.maxsl) + (" " + t3);
    NextNumber(c.maxsl, t3);
    var t1 := Dec(c.minsl) + (" " + t2);
    NextNumber(c.minsl, t2);
    DecIsWord(c.status);
    NextWord("!" + Dec(c.status), t1);
    NumberLineIs(c, t1);
  }

  lemma NumberLineIs(c: Conf, t1: string)
    requires t1 == Dec(c.minsl) + (" " + (Dec(c.maxsl) + (" " + (Dec(c.mindsl) + (" " + (Dec(c.maxdsl) + (" "
      + (Dec(c.minage) + (" " + (Dec(c.maxage) + (" " + (Dec(c.minbps) + (" " + (Dec(c.sex) + (" "
      + (ArString(c.ar) + (" " + (ArString(c.dar) + "\n"))))))))))))))))))
    ensures NumberLine(c) + "\n" == "!" + Dec(c.status) + (" " + t1)
  {
    hide Dec, ArString;
  }

  lemma FeedNumbers(done: seq<Conf>, cur: Conf, c: Conf, max: nat)
    requires Good(c, max) && cur.designator != '\0'
    ensures Feed(Reading(done, cur), NumberLine(c) + "\n", max)
         == Reading(done, c.(designator := cur.designator, name := cur.name, subs := cur.subs))
  {
    hide Dec, ArString, ArFlags, Words, NumberLine, Unsigned;
    NumberLineWords(c);
    var first := "!" + Dec(c.status);
    assert first[0] == '!' && first[1..] == Dec(c.status);
    UnsignedOfDec(c.status, SHORT);
    UnsignedOfDec(c.minsl, BYTE);
    UnsignedOfDec(c.maxsl, BYTE);
    UnsignedOfDec(c.mindsl, BYTE);
    UnsignedOfDec(c.maxdsl, BYTE);
    UnsignedOfDec(c.minage, BYTE);
    UnsignedOfDec(c.maxage, BYTE);
    UnsignedOfDec(c.minbps, SHORT);
    UnsignedOfDec(c.sex, BYTE);
    ArRoundTrip(c.ar);
    ArRoundTrip(c.dar);
  }

  lemma NameWords(c: Conf)
    requires c.designator !in WHITE && Named(c) && forall i :: 0 <= i < |c.name| ==> c.name[i] !in "\r\n"
    ensures var w := Words(NameLine(c) + "\n", WHITE); |w| > 1 && w[0] == ['~', c.designator]
    ensures Words((NameLine(c) + "\n")[3..], "\r\n") == [c.name]
  {
    hide Words;
    var i :| 0 <= i < |c.name| && c.name[i] !in WHITE;
    assert NameLine(c) + "\n" == ['~', c.designator] + (" " + (c.name + "\n"));
    NextWord(['~', c.designator], c.name + "\n");
    assert (c.name + "\n")[i] == c.name[i];
    HasWord(c.name + "\n", WHITE, i);
    assert (NameLine(c) + "\n")[3..] == c.name + "\n";
    FirstWord(c.name, "\n", "\r\n");
    NoWords();
  }

  lemma {:induction false} OnlyBlanks(s: string)
    requires forall i :: 0 <= i < |s| ==> s[i] in WHITE
    ensures Words(s, WHITE) == []
    decreases |s|
  {
    if s == "" {
      NoWords();
    } else {
      hide Words;
      OnlyBlanks(s[1..]);
      SkipOne(s[0], s[1..], WHITE);
      assert [s[0]] + s[1..] == s;
    }
  }

  lemma BlankName(c: Conf)
    requires c.designator !in WHITE && !Named(c)
    ensures Words(NameLine(c) + "\n", WHITE) == [['~', c.designator]]
  {
    hide Words;
    assert NameLine(c) + "\n" == ['~', c.designator] + (" " + (c.name + "\n"));
    NextWord(['~', c.designator], c.name + "\n");
    OnlyBlanks(c.name + "\n");
  }

  /** A record whose name is blank is passed over. */
  lemma FeedNameless(done: seq<Conf>, c: Conf, max: nat)
    requires Good(c, max) && !Named(c)
    ensures var r := Reading(done, ZERO_CONF);
      && Feed(r, NameLine(c) + "\n", max) == r
      && Feed(r, NumberLine(c) + "\n", max) == r
      && Feed(r, Piece(MemberLine(c)), max) == r
  {
    hide Words, Named, Numbers, MembersOf, Dec, ArString, MemberText;
    BlankName(c);
    FirstCharacter(NumberLine(c) + "\n");
    FirstCharacter(Piece(MemberLine(c)));
  }

  lemma FeedName(done: seq<Conf>, c: Conf, max: nat)
    requires Good(c, max) && Named(c)
    ensures Feed(Reading(done, ZERO_CONF), NameLine(c) + "\n", max)
         == Reading(done, ZERO_CONF.(designator := c.designator, name := c.name))
  {
    hide Words;
    NameWords(c);
  }

  /** A record as it is read back: the members that the reader's line buffer has room for, behind the at-sign. */
  function AsRead(c: Conf): Conf { c.(subs := CutTo(c.subs, MAX_CONF_LINE - 2)) }

  lemma FeedMembers(done: seq<Conf>, cur: Conf, c: Conf, max: nat)
    requires Good(c, max) && cur.designator != '\0'
    ensures Feed(Reading(done, cur), Piece(MemberLine(c)), max)
         == Reading(done + [cur.(subs := AsRead(c).subs)], ZERO_CONF)
  {
    hide Words, MembersOf, MemberText, CutTo;
    if |MemberLine(c)| < MAX_CONF_LINE - 1 {
      CutKeepsAll(c.subs, MAX_CONF_LINE - 2);
      MemberLineWords(c.subs, max);
    } else {
      assert Piece(MemberLine(c)) == "@" + MemberText(c.subs)[..MAX_CONF_LINE - 2];
      CutLineWords(c.subs, MAX_CONF_LINE - 2, max);
    }
  }

  /** Of a name on one line the first 61 characters are read. */
  lemma FeedLongName(done: seq<Conf>, c: Conf, max: nat)
    requires c.designator !in WHITE && Named(c) && forall i :: 0 <= i < |c.name| ==> c.name[i] !in "\r\n"
    ensures Feed(Reading(done, ZERO_CONF), NameLine(c) + "\n", max)
         == (var name := if |c.name| < 61 then c.name else c.name[..61];
             Reading(done, ZERO_CONF.(designator := c.designator, name := name)))
  {
    hide Words;
    NameWords(c);
  }

  lemma FeedBlank(r: Reading, max: nat)
    ensures Feed(r, Piece(""), max) == r
  {
    hide Words;
    NoWords();
    assert "" + "\n" == "\n";
  }

  lemma DecIsShort(n: nat)
    requires n < 100000
    ensures |Dec(n)| <= 5 && forall i :: 0 <= i < |Dec(n)| ==> Dec(n)[i] != '\n'
  {
    hide Dec;
    DecLength(n);
    var s := Dec(n);
    assert forall i :: 0 <= i < |s| ==> IsDigit(s[i]);
  }

  lemma NumberLineShort(c: Conf, max: nat)
    requires Good(c, max)
    ensures OneLine(NumberLine(c))
  {
    hide Dec, ArString;
    DecIsShort(c.status);
    DecIsShort(c.minsl);
    DecIsShort(c.maxsl);
    DecIsShort(c.mindsl);
    DecIsShort(c.maxdsl);
    DecIsShort(c.minage);
    DecIsShort(c.maxage);
    DecIsShort(c.minbps);
    DecIsShort(c.sex);
    ArStringShape(c.ar);
    ArStringShape(c.dar);
  }

  lemma ShortPieces(c: Conf, max: nat)
    requires Good(c, max)
    ensures OneLine(NameLine(c)) && Piece(NameLine(c)) == NameLine(c) + "\n"
    ensures OneLine(NumberLine(c)) && Piece(NumberLine(c)) == NumberLine(c) + "\n"
  {
    hide NumberLine;
    NumberLineShort(c, max);
  }

  /** The first three lines of a record, one after the other. */
  predicate ThreeSteps(r: Reading, c: Conf, max: nat, r1: Reading, r2: Reading, r3: Reading) {
    && Feed(r, Piece(NameLine(c)), max) == r1
    && Feed(r1, Piece(NumberLine(c)), max) == r2
    && Feed(r2, Piece(MemberLine(c)), max) == r3
  }

  lemma FourLines(r: Reading, c: Conf, rest: seq<string>, max: nat, r1: Reading, r2: Reading, r3: Reading)
    requires |r.done| < MAX_CONFERENCES && |r1.done| < MAX_CONFERENCES && |r2.done| < MAX_CONFERENCES
    ensures ThreeSteps(r, c, max, r1, r2, r3) ==> FeedLines(r, Lines(c) + rest, max) == FeedLines(r3, rest, max)
  {
    hide Feed, NameLine, NumberLine, MemberLine;
    if ThreeSteps(r, c, max, r1, r2, r3) {
      FeedBlank(r3, max);
      var l1 := [NumberLine(c), MemberLine(c), ""] + rest;
      var l2 := [MemberLine(c), ""] + rest;
      assert (Lines(c) + rest)[1..] == l1 && l1[1..] == l2 && l2[1..] == [""] + rest && ([""] + rest)[1..] == rest;
      assert FeedLines(r, Lines(c) + rest, max) == FeedLines(r1, l1, max);
      assert FeedLines(r1, l1, max) == FeedLines(r2, l2, max);
      assert FeedLines(r2, l2, max) == FeedLines(r3, [""] + rest, max);
    }
  }

  /** The four lines of a record read back as what the buffer leaves of that record, if its name is not blank, and as
      nothing otherwise. */
  lemma FeedRecord(done: seq<Conf>, c: Conf, rest: seq<string>, max: nat)
    requires Good(c, max) && |done| < MAX_CONFERENCES
    ensures FeedLines(Reading(done, ZERO_CONF), Lines(c) + rest, max)
         == FeedLines(Reading(if Named(c) then done + [AsRead(c)] else done, ZERO_CONF), rest, max)
  {
    hide Feed, FeedLines, Lines, NameLine, NumberLine, MemberLine, Named;
    var r0 := Reading(done, ZERO_CONF);
    ShortPieces(c, max);
    if Named(c) {
      FeedName(done, c, max);
      var r1 := Reading(done, ZERO_CONF.(designator := c.designator, name := c.name));
      FeedNumbers(done, r1.cur, c, max);
      var r2 := Reading(done, c.(subs := []));
      FeedMembers(done, r2.cur, c, max);
      FourLines(r0, c, rest, max, r1, r2, Reading(done + [AsRead(c)], ZERO_CONF));
    } else {
      FeedNameless(done, c, max);
      FourLines(r0, c, rest, max, r0, r0, r0);
    }
  }

  function AllAsRead(cs: seq<Conf>): (r: seq<Conf>)
    ensures |r| == |cs| && forall i :: 0 <= i < |cs| ==> r[i] == AsRead(cs[i])
  {
    seq(|cs|, i requires 0 <= i < |cs| => AsRead(cs[i]))
  }

  lemma AllAsReadHead(c: Conf, cs: seq<Conf>)
    ensures AllAsRead([c] + cs) == [AsRead(c)] + AllAsRead(cs)
  {
    hide AsRead;
  }

  lemma {:induction false} FeedRecords(done: seq<Conf>, cs: seq<Conf>, max: nat)
    requires forall i :: 0 <= i < |cs| ==> Good(cs[i], max)
    requires |done| + |cs| <= MAX_CONFERENCES
    ensures FeedLines(Reading(done, ZERO_CONF), AllLines(cs), max)
         == Reading(done + AllAsRead(Filter(Named, cs)), ZERO_CONF)
    decreases |cs|
  {
    hide Lines, Good, Named, Filter, AsRead, AllAsRead, Feed;
    if cs == [] {
      FilterNone(Named, cs);
      NothingAfter(done, AllAsRead(Filter(Named, cs)));
    } else {
      var more := if Named(cs[0]) then done + [AsRead(cs[0])] else done;
      FeedRecord(done, cs[0], AllLines(cs[1..]), max);
      FeedRecords(more, cs[1..], max);
      FilterHead(Named, cs);
      var kept := Filter(Named, cs[1..]);
      AllAsReadHead(cs[0], kept);
      Associates(done, [AsRead(cs[0])], AllAsRead(kept));
    }
  }

  // ----- as many lines begin with a tilde as there are records -----

  function Tildes(lines: seq<string>): nat {
    if lines == [] then 0 else (if lines[0] != "" && lines[0][0] == '~' then 1 else 0) + Tildes(lines[1..])
  }

  lemma {:induction false} CountJoined(lines: seq<string>)
    requires forall i :: 0 <= i < |lines| ==> Whole(lines[i])
    ensures NumConferences(Joined(lines)) == Tildes(lines)
    decreases |lines|
  {
    hide LineEnd, Piece;
    if lines != [] {
      var line := lines[0];
      assert Whole(line);
      var rest := Joined(lines[1..]);
      FirstPiece(line, rest);
      assert (line + "\n" + rest)[0] == if line == "" then '\n' else line[0];
      if |line| >= MAX_CONF_LINE - 1 {
        InertIsSkipped(Reading([], ZERO_CONF), line[MAX_CONF_LINE - 1..], rest, 0);
      }
      CountJoined(lines[1..]);
    }
  }

  lemma TildesOfRecord(c: Conf, rest: seq<string>)
    ensures Tildes(Lines(c) + rest) == 1 + Tildes(rest)
  {
    hide Dec, ArString, MemberText;
    var l1 := [NumberLine(c), MemberLine(c), ""] + rest;
    var l2 := [MemberLine(c), ""] + rest;
    assert (Lines(c) + rest)[1..] == l1 && l1[1..] == l2 && l2[1..] == [""] + rest && ([""] + rest)[1..] == rest;
    assert Tildes(l1) == Tildes(l2) == Tildes([""] + rest) == Tildes(rest);
  }

  lemma {:induction false} TildesOfRecords(cs: seq<Conf>)
    ensures Tildes(AllLines(cs)) == |cs|
  {
    hide Lines;
    if cs != [] {
      TildesOfRecords(cs[1..]);
      TildesOfRecord(cs[0], AllLines(cs[1..]));
    }
  }

  lemma HeaderIsSkipped(r: Reading, max: nat)
    ensures Feed(r, Piece(HEADER), max) == r
  {
    hide Words;
    HeaderShape();
    FirstCharacter(HEADER + "\n");
  }

  lemma HeaderShape()
    ensures OneLine(HEADER) && Whole(HEADER) && HEADER != "" && HEADER[0] == '/'
  {
    assert NoFeed(HEADER1) && NoFeed(HEADER2) && NoFeed(HEADER3) && NoFeed(HEADER4);
    assert HEADER1[0] == '/' && |HEADER1| == 18 && |HEADER2| == 18 && |HEADER3| == 18 && |HEADER4| == 15;
  }

  lemma FirstCharacter(s: string)
    requires s != "" && s[0] !in WHITE
    ensures Words(s, WHITE) != [] && Words(s, WHITE)[0] != "" && Words(s, WHITE)[0][0] == s[0]
  {
  }

  lemma {:induction false} MemberTextInert(s: seq<subconf>)
    ensures Inert(MemberText(s))
  {
    hide Dec;
    if s != [] {
      MemberTextInert(s[1..]);
    }
  }

  lemma LinesAreWhole(c: Conf, max: nat)
    requires Good(c, max)
    ensures forall i :: 0 <= i < 4 ==> Whole(Lines(c)[i])
  {
    hide NumberLine, MemberText;
    ShortPieces(c, max);
    MemberTextInert(c.subs);
    assert Whole(MemberLine(c));
  }

  lemma {:induction false} AllLinesAreWhole(cs: seq<Conf>, max: nat)
    requires forall i :: 0 <= i < |cs| ==> Good(cs[i], max)
    ensures forall i :: 0 <= i < |AllLines(cs)| ==> Whole(AllLines(cs)[i])
  {
    hide Good, Whole, NameLine, NumberLine, MemberLine;
    if cs != [] {
      LinesAreWhole(cs[0], max);
      AllLinesAreWhole(cs[1..], max);
    }
  }

  lemma EmptyIsWhole()
    ensures Whole("")
  {
  }

  lemma SavedLines(cs: seq<Conf>, max: nat)
    requires forall i :: 0 <= i < |cs| ==> Good(cs[i], max)
    ensures forall i :: 0 <= i < |AllLines(cs)| + 2 ==> Whole(([HEADER, ""] + AllLines(cs))[i])
  {
    hide Good, AllLines, Whole;
    AllLinesAreWhole(cs, max);
    HeaderShape();
    EmptyIsWhole();
  }

  lemma SavedCount(cs: seq<Conf>, max: nat)
    requires forall i :: 0 <= i < |cs| ==> Good(cs[i], max)
    ensures NumConferences(FileText(cs)) == |cs|
  {
    hide Good, AllLines, Joined, Whole;
    var lines := [HEADER, ""] + AllLines(cs);
    SavedLines(cs, max);
    CountJoined(lines);
    HeaderShape();
    TildesOfRecords(cs);
    assert lines[1..] == [""] + AllLines(cs) && ([""] + AllLines(cs))[1..] == AllLines(cs);
    assert Tildes([""] + AllLines(cs)) == Tildes(AllLines(cs));
  }

  lemma SavedDone(cs: seq<Conf>, max: nat)
    requires |cs| <= MAX_CONFERENCES && forall i :: 0 <= i < |cs| ==> Good(cs[i], max)
    ensures FeedText(Reading([], ZERO_CONF), FileText(cs), max).done == AllAsRead(Filter(Named, cs))
  {
    hide Good, Feed, AllLines, Joined, Whole, Filter, AllAsRead;
    var r := Reading([], ZERO_CONF);
    var lines := [HEADER, ""] + AllLines(cs);
    SavedLines(cs, max);
    FeedJoined(r, lines, max);
    HeaderIsSkipped(r, max);
    FeedBlank(r, max);
    assert lines[1..] == [""] + AllLines(cs) && ([""] + AllLines(cs))[1..] == AllLines(cs);
    assert FeedLines(r, lines, max) == FeedLines(r, [""] + AllLines(cs), max) == FeedLines(r, AllLines(cs), max);
    FeedRecords([], cs, max);
    NothingBefore([], AllAsRead(Filter(Named, cs)));
  }

  lemma {:induction false} FilterDrops(cs: seq<Conf>, i: nat)
    requires i < |cs| && !Named(cs[i])
    ensures |Filter(Named, cs)| < |cs|
  {
    hide Named;
    if i > 0 { FilterDrops(cs[1..], i - 1); }
  }

  /** The buffer has room for all members exactly when the member line has at most 4096 characters: the last blank and
      the line feed may be cut off. */
  lemma ReadsWhole(c: Conf)
    ensures AsRead(c) == c <==> |MemberLine(c)| <= MAX_CONF_LINE
  {
    hide MemberText, CutTo;
    CutKeepsAll(c.subs, MAX_CONF_LINE - 2);
    assert AsRead(c) == c <==> CutTo(c.subs, MAX_CONF_LINE - 2) == c.subs;
  }

  predicate ReadsBack(c: Conf) { Named(c) && |MemberLine(c)| <= MAX_CONF_LINE }

  /** What is read back from a saved list: the records whose names are not blank, each with the members that fit the
      line buffer, and zero records in place of the others. It is the same list exactly when every name has a character
      that is not blank and no member line has more than 4096 characters. */
  lemma SavedReadsBack(cs: seq<Conf>, max: nat)
    requires |cs| <= MAX_CONFERENCES && forall i :: 0 <= i < |cs| ==> Good(cs[i], max)
    ensures var kept := Filter(Named, cs);
      Loaded(FileText(cs), max) == AllAsRead(kept) + ZeroConfs(|cs| - |kept|)
    ensures Loaded(FileText(cs), max) == cs <==> forall i :: 0 <= i < |cs| ==> ReadsBack(cs[i])
  {
    hide FileText, FeedText, Named, Filter, MemberLine, AsRead;
    var kept := Filter(Named, cs);
    SavedCount(cs, max);
    SavedDone(cs, max);
    assert |cs| == |kept| ==> AllAsRead(kept) + ZeroConfs(|cs| - |kept|) == AllAsRead(kept);
    if i :| 0 <= i < |cs| && !Named(cs[i]) {
      FilterDrops(cs, i);
      assert Loaded(FileText(cs), max)[|cs| - 1] == ZERO_CONF;
      assert Good(cs[|cs| - 1], max);
    } else {
      assert forall c :: c in cs ==> Named(c);
      FilterAll(Named, cs);
      assert Loaded(FileText(cs), max) == AllAsRead(cs);
      forall i | 0 <= i < |cs|
        ensures AsRead(cs[i]) == cs[i] <==> ReadsBack(cs[i])
      {
        ReadsWhole(cs[i]);
      }
      AsReadOrNot(cs);
    }
  }

  lemma AsReadOrNot(cs: seq<Conf>)
    requires forall i :: 0 <= i < |cs| ==> (AsRead(cs[i]) == cs[i] <==> ReadsBack(cs[i]))
    ensures AllAsRead(cs) == cs <==> forall i :: 0 <= i < |cs| ==> ReadsBack(cs[i])
  {
    hide AsRead, ReadsBack;
    if AllAsRead(cs) == cs {
      assert forall i :: 0 <= i < |cs| ==> AllAsRead(cs)[i] == cs[i];
    }
  }

  /** A conference whose name was changed to a blank is there no longer; a record of zeros has its place. */
  lemma BlankNameIsLost(max: nat)
    requires max <= 0x1_0000
    ensures var c := ZERO_CONF.(designator := 'A', name := " ", maxsl := 255, maxdsl := 255, maxage := 255);
      Good(c, max) && Loaded(FileText([c]), max) == [ZERO_CONF]
  {
    hide FileText, Loaded, Filter;
    var c := ZERO_CONF.(designator := 'A', name := " ", maxsl := 255, maxdsl := 255, maxage := 255);
    assert Good(c, max);
    SavedReadsBack([c], max);
    FilterNone(Named, [c]);
  }

  /** A full conference of areas 0 to 1022, saved after 41 areas were inserted in front, comes back with area 10 in
      place of area 1063. */
  lemma FullListIsLost(c: Conf, k: nat, max: nat)
    requires k == 41 && max == FULL + k && c.subs == InsertedInFront(Range(0, FULL), k, FULL)
    requires Good(c, max) && Named(c)
    ensures c.subs == Range(k, FULL) && |MemberLine(c)| == 4098
    ensures Loaded(FileText([c]), max) == [c.(subs := Range(k, FULL - 1) + [10])]
  {
    hide FileText, Loaded, Filter, Named, MemberText, CutTo, InsertedInFront;
    FullListIsCut(FULL, k);
    SavedReadsBack([c], max);
    FilterAll(Named, [c]);
    assert AllAsRead([c]) == [AsRead(c)];
    assert [AsRead(c)] + ZeroConfs(0) == [AsRead(c)];
  }

  /** Saving with a new record at a position and reading back gives the list with the record inserted there, exactly
      when no name is blank and no member line too long. */
  method SaveThenRead(cp: seq<Conf>, whichnum: int, c: Option<Conf>, max: nat) returns (cs: seq<Conf>)
    requires |Saved(cp, whichnum, c)| <= MAX_CONFERENCES
    requires (forall i :: 0 <= i < |cp| ==> Good(cp[i], max)) && (c.Some? ==> Good(c.value, max))
    ensures cs == Saved(cp, whichnum, c) <==>
      forall i :: 0 <= i < |Saved(cp, whichnum, c)| ==> ReadsBack(Saved(cp, whichnum, c)[i])
  {
    hide FileText, Loaded, Good, ReadsBack;
    var text := SaveConfs(cp, whichnum, c);
    var nc;
    nc, cs := ReadConferences(text, max);
    SavedReadsBack(Saved(cp, whichnum, c), max);
  }
}
