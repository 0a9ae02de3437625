/** The mail file: local delivery (`sendout_email`, `bbs/email.cpp`), multi-mail delivery (`bbs/multmail.cpp`),
    deletion (`delmail`, `bbs/email.cpp`) and the compaction and recount at log-off (`bbs/lilo.cpp`).
 */
module Mail {
  import opened Seqs

  /** Where a message text is stored. */
  datatype TextId = TextId(storedAs: nat, storageType: nat)

  datatype MailRec = MailRec(title: string, fromsys: nat, fromuser: nat, tosys: nat, touser: nat, daten: nat,
                             multimail: bool, msg: TextId)

  /** The date and the text of a deleted record. */
  const NEVER := 0xFFFF_FFFF
  const NO_TEXT := TextId(0xFFFF_FFFF, 0)

  /** A record with neither a system nor a user to go to is a tombstone. */
  predicate Live(r: MailRec) { r.tosys != 0 || r.touser != 0 }

  predicate LocalTo(r: MailRec, u: nat) { r.tosys == 0 && r.touser == u }

  function LiveMail(file: seq<MailRec>): seq<MailRec> { Filter(Live, file) }

  /** How many records are local mail for user `u`. */
  function CountTo(file: seq<MailRec>, u: nat): (n: nat)
    ensures n <= |file|
  {
    if file == [] then 0 else (if LocalTo(file[0], u) then 1 else 0) + CountTo(file[1..], u)
  }

  /** The mail file, each user's waiting counter (a byte), the sysop's counter, and the stored texts. */
  datatype Store = Store(file: seq<MailRec>, waiting: seq<nat>, fwaiting: int, texts: set<TextId>)

  // ----- what the operations compute -----

  /** Where the tombstones at the end of the file start. */
  function Tail(file: seq<MailRec>): (i: nat)
    ensures i <= |file|
    ensures forall k :: i <= k < |file| ==> !Live(file[k])
    ensures i > 0 ==> Live(file[i - 1])
  {
    if file == [] || Live(file[|file| - 1]) then |file| else Tail(file[..|file| - 1])
  }

  /** Records written one after the other from position `i`. */
  function Write(file: seq<MailRec>, i: nat, recs: seq<MailRec>): seq<MailRec>
    requires i <= |file|
  {
    file[..i] + recs + (if i + |recs| <= |file| then file[i + |recs|..] else [])
  }

  /** User numbers without a record are not written. The counter is a byte. */
  function SetWaiting(waiting: seq<nat>, u: nat, n: nat): (w: seq<nat>)
    ensures |w| == |waiting|
  {
    if 1 <= u < |waiting| then waiting[u := n % 256] else waiting
  }

  function WaitingOf(waiting: seq<nat>, u: nat): nat {
    if u < |waiting| then waiting[u] else 0
  }

  function OneMore(waiting: seq<nat>, u: nat): (w: seq<nat>)
    ensures |w| == |waiting|
  {
    SetWaiting(waiting, u, WaitingOf(waiting, u) + 1)
  }

  function OneLess(waiting: seq<nat>, u: nat): (w: seq<nat>)
    ensures |w| == |waiting|
  {
    if WaitingOf(waiting, u) == 0 then waiting else SetWaiting(waiting, u, WaitingOf(waiting, u) - 1)
  }

  function Deliver(s: Store, m: MailRec): Store {
    Store(Write(s.file, Tail(s.file), [m]), OneMore(s.waiting, m.touser),
          s.fwaiting + (if m.touser == 1 then 1 else 0), s.texts)
  }

  /** The same letter for each user of the list. */
  function Copies(m: MailRec, users: seq<nat>): (r: seq<MailRec>)
    ensures |r| == |users| && forall i :: 0 <= i < |r| ==> r[i] == m.(touser := users[i], tosys := 0, multimail := true)
  {
    if users == [] then [] else [m.(touser := users[0], tosys := 0, multimail := true)] + Copies(m, users[1..])
  }

  function MoreForAll(waiting: seq<nat>, users: seq<nat>): (w: seq<nat>)
    ensures |w| == |waiting|
    decreases |users|
  {
    if users == [] then waiting else MoreForAll(OneMore(waiting, users[0]), users[1..])
  }

  function Occurrences(users: seq<nat>, u: nat): nat {
    if users == [] then 0 else (if users[0] == u then 1 else 0) + Occurrences(users[1..], u)
  }

  function DeliverMany(s: Store, m: MailRec, users: seq<nat>): Store {
    Store(Write(s.file, Tail(s.file), Copies(m, users)), MoreForAll(s.waiting, users),
          s.fwaiting + Occurrences(users, 1), s.texts)
  }

  /** Another record, not marked deleted, has the same text. */
  predicate OtherHas(file: seq<MailRec>, loc: nat)
    requires loc < |file|
  {
    exists i :: 0 <= i < |file| && i != loc && file[i].msg == file[loc].msg && file[i].daten != NEVER
  }

  /** `delmail` removes the text unless the letter is multi-mail and another record still has it. */
  predicate RemovesText(file: seq<MailRec>, loc: nat)
    requires loc < |file|
  {
    !(file[loc].multimail && OtherHas(file, loc))
  }

  function Tombstone(m: MailRec): MailRec {
    m.(touser := 0, tosys := 0, daten := NEVER, msg := NO_TEXT)
  }

  function Delete(s: Store, loc: nat): Store
    requires loc < |s.file|
  {
    var m := s.file[loc];
    if !Live(m) then s
    else
      Store(s.file[loc := Tombstone(m)],
            if m.tosys == 0 then OneLess(s.waiting, m.touser) else s.waiting,
            s.fwaiting - (if LocalTo(m, 1) then 1 else 0),
            if RemovesText(s.file, loc) then s.texts - {m.msg} else s.texts)
  }

  /** Log-off of user `u`: the file is compacted when mail was deleted in this session, and the user's counter is
      counted afresh, up to 255. */
  function LogOff(s: Store, u: nat, mailcheck: bool): Store {
    var n := if CountTo(s.file, u) > 255 then 255 else CountTo(s.file, u);
    var w := SetWaiting(s.waiting, u, n);
    Store(if mailcheck then LiveMail(s.file) else s.file, w, if u == 1 then n else s.fwaiting, s.texts)
  }

  // ----- the code -----

  class MailBox {
    var file: seq<MailRec>
    var waiting: seq<nat>
    var fwaiting: int
    var texts: set<TextId>
    var mailcheck: bool

    ghost function State(): Store
      reads this
    {
      Store(file, waiting, fwaiting, texts)
    }

    constructor (users: nat)
      ensures State() == Store([], seq(users, _ => 0), 0, {}) && !mailcheck
    {
      file, waiting, fwaiting, texts, mailcheck := [], seq(users, _ => 0), 0, {}, false;
    }

    /** The search both delivery paths make for the first free place at the end of the file. */
    method FindTail() returns (i: nat)
      ensures i == Tail(file)
    {
      hide Tail;
      if |file| == 0 {
        return 0;
      }
      i := |file| - 1;
      var messageRecord := file[i];
      assert file[..i + 1] == file;
      while i > 0 && messageRecord.tosys == 0 && messageRecord.touser == 0
        invariant 0 <= i < |file| && messageRecord == file[i]
        invariant Tail(file) == Tail(file[..i + 1])
      {
        TailStep(file, i);
        i := i - 1;
        messageRecord := file[i];
      }
      TailStep(file, i);
      if messageRecord.tosys != 0 || messageRecord.touser != 0 {
        i := i + 1;
      }
    }

    /** `sendout_email` for a user of this system. */
    method SendOutEmail(m: MailRec)
      requires m.tosys == 0
      modifies this`file, this`waiting, this`fwaiting
      ensures State() == Deliver(old(State()), m)
    {
      hide Tail;
      var i := FindTail();
      file := if i < |file| then file[i := m] else file + [m];
      waiting := OneMore(waiting, m.touser);
      if m.touser == 1 {
        fwaiting := fwaiting + 1;
      }
      assert file == Write(old(file), i, [m]);
    }

    /** The delivery part of `multimail`: the counters first, then one record for each user still on the list. */
    method MultiMail(m: MailRec, users: seq<nat>)
      requires forall i :: 0 <= i < |users| ==> users[i] >= 1
      modifies this`file, this`waiting, this`fwaiting
      ensures State() == DeliverMany(old(State()), m, users)
    {
      hide Write, Copies, MoreForAll, Occurrences, Tail;
      CountLetters(users);
      WriteLetters(m, users);
    }

    method CountLetters(users: seq<nat>)
      modifies this`waiting, this`fwaiting
      ensures waiting == MoreForAll(old(waiting), users)
      ensures fwaiting == old(fwaiting) + Occurrences(users, 1)
    {
      hide OneMore;
      var cv := 0;
      while cv < |users|
        invariant 0 <= cv <= |users|
        invariant MoreForAll(waiting, users[cv..]) == MoreForAll(old(waiting), users)
        invariant fwaiting + Occurrences(users[cv..], 1) == old(fwaiting) + Occurrences(users, 1)
      {
        assert users[cv..][0] == users[cv] && users[cv..][1..] == users[cv + 1..];
        waiting := OneMore(waiting, users[cv]);
        if users[cv] == 1 {
          fwaiting := fwaiting + 1;
        }
        cv := cv + 1;
      }
    }

    method WriteLetters(m: MailRec, users: seq<nat>)
      modifies this`file
      ensures file == Write(old(file), Tail(old(file)), Copies(m, users))
    {
      hide Write, Copies, Tail;
      var i := FindTail();
      ghost var start, copies := i, Copies(m, users);
      WriteNothing(file, i);
      assert copies[..0] == [];
      var cv := 0;
      while cv < |users|
        invariant 0 <= cv <= |users| && start + cv == i <= |file|
        invariant file == Write(old(file), start, copies[..cv])
      {
        var rec := m.(touser := users[cv], tosys := 0, multimail := true);
        WriteNext(old(file), start, copies[..cv], rec);
        assert copies[..cv + 1] == copies[..cv] + [rec];
        file := if i < |file| then file[i := rec] else file + [rec];
        i := i + 1;
        cv := cv + 1;
      }
      assert copies[..cv] == copies;
    }

    /** `delmail`. */
    method DelMail(loc: nat)
      requires loc < |file|
      modifies this
      ensures State() == Delete(old(State()), loc)
      ensures mailcheck == (old(mailcheck) || Live(old(file)[loc]))
    {
      var m := file[loc];
      if m.touser == 0 && m.tosys == 0 {
        return;
      }
      var rm := true;
      if m.multimail {
        var otf := false;
        var i := 0;
        while i < |file|
          invariant 0 <= i <= |file|
          invariant otf <==> exists k :: 0 <= k < i && k != loc && file[k].msg == m.msg && file[k].daten != NEVER
        {
          if i != loc {
            var m1 := file[i];
            if m.msg == m1.msg && m1.daten != NEVER {
              otf := true;
            }
          }
          i := i + 1;
        }
        if otf {
          rm := false;
        }
      }
      if rm {
        texts := texts - {m.msg};
      }
      if m.tosys == 0 {
        waiting := OneLess(waiting, m.touser);
        if m.touser == 1 {
          fwaiting := fwaiting - 1;
        }
      }
      file := file[loc := Tombstone(m)];
      mailcheck := true;
    }

    /** The mail part of `logoff`. */
    method LogOffUser(usernum: nat)
      requires usernum >= 1
      modifies this`file, this`waiting, this`fwaiting
      ensures State() == LogOff(old(State()), usernum, mailcheck)
    {
      var numWaiting := 0;
      if mailcheck {
        numWaiting := Compact(usernum);
      } else {
        numWaiting := Recount(usernum);
      }
      if usernum == 1 {
        fwaiting := numWaiting;
      }
      waiting := SetWaiting(waiting, usernum, numWaiting);
    }

    method Recount(usernum: nat) returns (numWaiting: nat)
      ensures numWaiting == if CountTo(file, usernum) > 255 then 255 else CountTo(file, usernum)
    {
      numWaiting := 0;
      var i := 0;
      while i < |file|
        invariant 0 <= i <= |file|
        invariant numWaiting == if CountTo(file[..i], usernum) > 255 then 255 else CountTo(file[..i], usernum)
      {
        var m := file[i];
        CountToSnoc(file[..i], m, usernum);
        assert file[..i + 1] == file[..i] + [m];
        if m.tosys == 0 && m.touser == usernum {
          if numWaiting != 255 {
            numWaiting := numWaiting + 1;
          }
        }
        i := i + 1;
      }
      assert file[..|file|] == file;
    }

    /** The in-place compaction: `r` reads, `w` writes. What is left behind is blanked and then cut off. */
    method Compact(usernum: nat) returns (numWaiting: nat)
      requires usernum >= 1
      modifies this`file
      ensures file == LiveMail(old(file))
      ensures numWaiting == if CountTo(old(file), usernum) > 255 then 255 else CountTo(old(file), usernum)
    {
      hide LiveMail, CountTo;
      numWaiting := 0;
      ghost var before := file;
      NothingRead(before, usernum);
      var t := |file|;
      var r, w := 0, 0;
      var m := MailRec("", 0, 0, 0, 0, 0, false, NO_TEXT);
      while r < t
        invariant 0 <= w <= r <= t == |file| == |before|
        invariant file[..w] == LiveMail(before[..r]) && file[r..] == before[r..]
        invariant numWaiting == if CountTo(before[..r], usernum) > 255 then 255 else CountTo(before[..r], usernum)
      {
        m := file[r];
        assert m == before[r] by { assert m == file[r..][0]; }
        OneRead(before, r, usernum);
        ghost var kept := file[..w];
        if m.tosys != 0 || m.touser != 0 {
          if m.tosys == 0 && m.touser == usernum {
            if numWaiting != 255 {
              numWaiting := numWaiting + 1;
            }
          }
          if r != w {
            file := file[w := m];
          }
          w := w + 1;
          assert file[..w] == kept + [m];
        }
        r := r + 1;
        assert file[r..] == before[r..];
      }
      assert before[..r] == before;
      if r != w {
        Blank(w, m.(tosys := 0, touser := 0));
      }
      file := file[..w];
    }

    method Blank(w: nat, m: MailRec)
      requires w <= |file|
      modifies this`file
      ensures |file| == |old(file)| && file[..w] == old(file)[..w]
      ensures forall i :: w <= i < |file| ==> file[i] == m
    {
      var w1 := w;
      while w1 < |file|
        invariant w <= w1 <= |file| == |old(file)|
        invariant file[..w] == old(file)[..w]
        invariant forall i :: w <= i < w1 ==> file[i] == m
      {
        ghost var kept := file[..w];
        file := file[w1 := m];
        assert file[..w] == kept;
        w1 := w1 + 1;
      }
    }
  }

  lemma TailStep(file: seq<MailRec>, i: nat)
    requires i < |file|
    ensures Tail(file[..i + 1]) == if Live(file[i]) then i + 1 else Tail(file[..i])
    ensures Tail(file[..0]) == 0
  {
    assert file[..i + 1][..i] == file[..i];
  }

  lemma WriteNothing(file: seq<MailRec>, i: nat)
    requires i <= |file|
    ensures Write(file, i, []) == file
  {
  }

  lemma NothingRead(file: seq<MailRec>, u: nat)
    ensures LiveMail(file[..0]) == [] && CountTo(file[..0], u) == 0
  {
  }

  lemma OneRead(file: seq<MailRec>, r: nat, u: nat)
    requires r < |file|
    ensures LiveMail(file[..r + 1]) == if Live(file[r]) then LiveMail(file[..r]) + [file[r]] else LiveMail(file[..r])
    ensures CountTo(file[..r + 1], u) == CountTo(file[..r], u) + (if LocalTo(file[r], u) then 1 else 0)
  {
    hide Filter, CountTo;
    CountToSnoc(file[..r], file[r], u);
    FilterAppend(Live, file[..r], [file[r]]);
    FilterOne(file[r]);
    assert file[..r + 1] == file[..r] + [file[r]];
  }

  lemma WriteNext(file: seq<MailRec>, i: nat, recs: seq<MailRec>, rec: MailRec)
    requires i <= |file|
    ensures var f := Write(file, i, recs);
      Write(file, i, recs + [rec])
        == if i + |recs| < |f| then f[i + |recs| := rec] else f + [rec]
  {
  }

  lemma FilterOne(m: MailRec)
    ensures LiveMail([m]) == if Live(m) then [m] else []
  {
    assert [m][1..] == [];
  }

  lemma {:induction false} CountToSnoc(file: seq<MailRec>, m: MailRec, u: nat)
    ensures CountTo(file + [m], u) == CountTo(file, u) + (if LocalTo(m, u) then 1 else 0)
  {
    CountToAppend(file, [m], u);
    assert [m][1..] == [];
  }

  lemma {:induction false} CountToAppend(a: seq<MailRec>, b: seq<MailRec>, u: nat)
    ensures CountTo(a + b, u) == CountTo(a, u) + CountTo(b, u)
  {
    if a == [] {
      assert a + b == b;
    } else {
      assert (a + b)[1..] == a[1..] + b;
      CountToAppend(a[1..], b, u);
    }
  }
}
