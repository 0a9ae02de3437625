/** Words of a text, as `strtok` cuts them (`wordcount` and `extractword`, `bbs/conf.cpp`). */
module TextWords {

  /** Length of the run of characters before the first delimiter. */
  function WordLength(s: string, delims: string): (n: nat)
    ensures n <= |s|
    ensures forall i :: 0 <= i < n ==> s[i] !in delims
    ensures n < |s| ==> s[n] in delims
  {
    if s == "" || s[0] in delims then 0 else 1 + WordLength(s[1..], delims)
  }

  function SkipDelims(s: string, delims: string): (r: string)
    ensures |r| <= |s|
    ensures r != "" ==> r[0] !in delims
  {
    if s != "" && s[0] in delims then SkipDelims(s[1..], delims) else s
  }

  /** All the words of a text. */
  function Words(s: string, delims: string): seq<string>
    decreases |s|
  {
    var t := SkipDelims(s, delims);
    if t == "" then []
    else
      var n := WordLength(t, delims);
      [t[..n]] + Words(t[n..], delims)
  }

  /** One call of `strtok`: the next word, if there is one, and the text after it. */
  method StrTok(s: string, delims: string) returns (found: bool, word: string, rest: string)
    ensures found <==> Words(s, delims) != []
    ensures found ==> Words(s, delims) == [word] + Words(rest, delims) && |rest| < |s|
    ensures found ==> word != "" && forall i :: 0 <= i < |word| ==> word[i] !in delims
  {
    var t := SkipDelims(s, delims);
    if t == "" {
      return false, "", "";
    }
    var n := WordLength(t, delims);
    found, word, rest := true, t[..n], t[n..];
  }

  /** `wordcount`. */
  method WordCount(instr: string, delims: string) returns (i: nat)
    ensures i == |Words(instr, delims)|
  {
    i := 0;
    var found, s, rest := StrTok(instr, delims);
    while found
      invariant found ==> i + 1 + |Words(rest, delims)| == |Words(instr, delims)|
      invariant !found ==> i == |Words(instr, delims)|
      decreases found, |rest|
    {
      i := i + 1;
      found, s, rest := StrTok(rest, delims);
    }
  }

  /** The `ww`-th word counting from 1, or nothing. */
  function Word(ww: nat, s: string, delims: string): string {
    if 1 <= ww <= |Words(s, delims)| then Words(s, delims)[ww - 1] else ""
  }

  /** `extractword`. */
  method ExtractWord(ww: nat, instr: string, delims: string) returns (rs: string)
    ensures rs == Word(ww, instr, delims)
  {
    if ww == 0 {
      return "";
    }
    var i := 0;
    var found, s, rest := StrTok(instr, delims);
    while found && i < ww
      invariant i <= ww && i <= |Words(instr, delims)|
      invariant found ==> Words(instr, delims)[i..] == [s] + Words(rest, delims)
      invariant !found ==> i == |Words(instr, delims)|
      invariant i < ww || i == 0
      decreases found, |rest|
    {
      i := i + 1;
      if i == ww {
        assert Words(instr, delims)[i - 1..][0] == Words(instr, delims)[i - 1];
        return s;
      }
      assert Words(instr, delims)[i..] == Words(instr, delims)[i - 1..][1..];
      found, s, rest := StrTok(rest, delims);
    }
    return "";
  }

  // ----- the words of texts put together from words -----

  lemma WordLengthIs(w: string, rest: string, delims: string)
    requires forall i :: 0 <= i < |w| ==> w[i] !in delims
    requires rest == "" || rest[0] in delims
    ensures WordLength(w + rest, delims) == |w|
  {
    assert forall i :: 0 <= i < |w| ==> (w + rest)[i] == w[i];
    assert rest != "" ==> (w + rest)[|w|] == rest[0];
  }

  lemma FirstWord(w: string, rest: string, delims: string)
    requires w != "" && forall i :: 0 <= i < |w| ==> w[i] !in delims
    requires rest == "" || rest[0] in delims
    ensures Words(w + rest, delims) == [w] + Words(rest, delims)
  {
    hide WordLength;
    WordLengthIs(w, rest, delims);
    assert (w + rest)[0] == w[0];
    assert (w + rest)[..|w|] == w && (w + rest)[|w|..] == rest;
  }

  lemma SkipOne(d: char, rest: string, delims: string)
    requires d in delims
    ensures Words([d] + rest, delims) == Words(rest, delims)
  {
    assert ([d] + rest)[1..] == rest;
  }

  /** A text with a character that is not a delimiter has a word. */
  lemma {:induction false} HasWord(s: string, delims: string, i: nat)
    requires i < |s| && s[i] !in delims
    ensures Words(s, delims) != []
    decreases |s|
  {
    if s[0] in delims {
      assert s[1..][i - 1] == s[i];
      HasWord(s[1..], delims, i - 1);
    }
  }

  /** Of a word, a delimiter and more text: word 1 is that word, the others are those of the text; there is no word
      0. */
  lemma WordByNumber(w: string, d: char, rest: string, delims: string, n: nat)
    requires w != "" && d in delims && forall i :: 0 <= i < |w| ==> w[i] !in delims
    ensures Word(n, w + ([d] + rest), delims)
         == if n == 0 then "" else if n == 1 then w else Word(n - 1, rest, delims)
  {
    hide Words;
    FirstWord(w, [d] + rest, delims);
    SkipOne(d, rest, delims);
  }
}
