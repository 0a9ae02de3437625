/** The editor of `bbs/diredit.cpp` on its real data: the area vector, one record of packed words per user, and the
    conference records. Each method is proved against the edit of the same name in `Directories`.
 */
module DirEditor {
  import opened Seqs
  import opened Conference
  import ScanBits
  import D = Directories

  /** The scan file: for each user the words that start at `pTempQScan_n`. */
  type Records = seq<seq<bv32>>

  /** Every user has words for `maxDirs` areas and one more. */
  ghost predicate Long(qscan: Records, maxDirs: nat) {
    forall u :: 0 <= u < |qscan| ==> |qscan[u]| > maxDirs / 32 + 1
  }

  /** The words of every user after an insertion, a removal, an exchange or a move. */
  ghost predicate AllInserted(was: Records, now: Records, n: nat, size: nat, maxDirs: nat)
    requires n <= size <= maxDirs && Long(was, maxDirs)
  {
    |now| == |was| && forall u :: 0 <= u < |was| ==> now[u] == ScanBits.InsertWords(was[u], n, size)
  }

  ghost predicate AllDeleted(was: Records, now: Records, n: nat, size: nat, maxDirs: nat)
    requires n <= size <= maxDirs && Long(was, maxDirs)
  {
    |now| == |was| && forall u :: 0 <= u < |was| ==> now[u] == ScanBits.DeleteWords(was[u], n, size)
  }

  ghost predicate AllSwapped(was: Records, now: Records, d1: nat, d2: nat, maxDirs: nat)
    requires d1 <= maxDirs && d2 <= maxDirs && Long(was, maxDirs)
  {
    |now| == |was| && forall u :: 0 <= u < |was| ==> now[u] == ScanBits.SwapWords(was[u], d1, d2)
  }

  ghost predicate AllMoved(was: Records, now: Records, p: nat, i2: nat, len: nat, maxDirs: nat)
    requires p <= len < maxDirs && i2 <= len && Long(was, maxDirs)
  {
    |now| == |was| && forall u :: 0 <= u < |was| ==> now[u] == ScanBits.MoveWords(was[u], p, i2, len)
  }

  /** What every user's words from word `d` on, the message-area flags, were. */
  ghost predicate TailsKept(was: Records, now: Records, d: nat) {
    |now| == |was| && forall u :: 0 <= u < |was| ==> ScanBits.TailKept(was[u], now[u], d)
  }

  lemma SameTails(q: Records, d: nat)
    ensures TailsKept(q, q, d)
  {
  }

  /** The words that the file areas have. */
  function DirWords(maxDirs: nat): (w: nat)
    ensures maxDirs <= 32 * w < maxDirs + 32
  {
    (maxDirs + 31) / 32
  }

  lemma InsertTails(was: Records, now: Records, n: nat, size: nat, maxDirs: nat)
    requires n <= size <= maxDirs && Long(was, maxDirs) && AllInserted(was, now, n, size, maxDirs)
    ensures size < 32 * DirWords(maxDirs) ==> TailsKept(was, now, DirWords(maxDirs))
  {
    hide ScanBits.InsertWords, ScanBits.TailKept;
    if size < 32 * DirWords(maxDirs) {
      forall u | 0 <= u < |was| ensures ScanBits.TailKept(was[u], now[u], DirWords(maxDirs)) {
        ScanBits.InsertKeepsTail(was[u], n, size, DirWords(maxDirs));
      }
    }
  }

  lemma DeleteTails(was: Records, now: Records, n: nat, size: nat, maxDirs: nat)
    requires n <= size < maxDirs && Long(was, maxDirs) && AllDeleted(was, now, n, size, maxDirs)
    ensures TailsKept(was, now, DirWords(maxDirs))
  {
    hide ScanBits.DeleteWords, ScanBits.TailKept;
    forall u | 0 <= u < |was| ensures ScanBits.TailKept(was[u], now[u], DirWords(maxDirs)) {
      ScanBits.DeleteKeepsTail(was[u], n, size, DirWords(maxDirs));
    }
  }

  lemma SwapTails(was: Records, now: Records, d1: nat, d2: nat, maxDirs: nat)
    requires d1 < maxDirs && d2 < maxDirs && Long(was, maxDirs) && AllSwapped(was, now, d1, d2, maxDirs)
    ensures TailsKept(was, now, DirWords(maxDirs))
  {
    hide ScanBits.SwapWords, ScanBits.TailKept;
    forall u | 0 <= u < |was| ensures ScanBits.TailKept(was[u], now[u], DirWords(maxDirs)) {
      ScanBits.SwapKeepsTail(was[u], d1, d2, DirWords(maxDirs));
    }
  }

  /** Three edits in a row are a move, and where the insertion leaves the tails alone so does the move. */
  lemma MoveTails(a: Records, b: Records, c: Records, d: Records, p: nat, i2: nat, len: nat, maxDirs: nat)
    requires p <= len < maxDirs && i2 <= len && Long(a, maxDirs) && Long(b, maxDirs) && Long(c, maxDirs)
    requires AllInserted(a, b, i2, len + 1, maxDirs)
    requires AllSwapped(b, c, p, i2, maxDirs) && AllDeleted(c, d, p, len, maxDirs)
    ensures AllMoved(a, d, p, i2, len, maxDirs)
  {
    hide ScanBits.InsertWords, ScanBits.SwapWords, ScanBits.DeleteWords;
  }

  class Editor {
    const maxDirs: nat
    const dloadsDir: string
    /** `dirconfs`. */
    const confs: seq<ConfRec>
    /** `session()->directories`. */
    var directories: seq<D.DirRec>
    var qscan: Records

    ghost predicate Valid()
      reads this, confs
    {
      && |directories| <= maxDirs <= 0xFFFF
      && Long(qscan, maxDirs)
      && ConfsValid()
    }

    /** The conference records are sound and share nothing. */
    ghost predicate ConfsValid()
      reads confs
    {
      && (forall c :: 0 <= c < |confs| ==> confs[c].Valid())
      && (forall c, d :: 0 <= c < d < |confs| ==> confs[c] != confs[d] && confs[c].subs != confs[d].subs)
    }

    ghost function MemberLists(): (m: seq<seq<subconf>>)
      requires ConfsValid()
      reads confs, set c | c in confs :: c.subs
      ensures |m| == |confs|
    {
      seq(|confs|, c requires 0 <= c < |confs| reads confs, set c | c in confs :: c.subs
                     requires ConfsValid() => confs[c].Members())
    }

    ghost function Scans(): (b: seq<seq<bool>>)
      requires Valid()
      reads this, confs
      ensures |b| == |qscan| && forall u :: 0 <= u < |b| ==> |b[u]| == |directories|
    {
      seq(|qscan|, u requires 0 <= u < |qscan| && Valid() reads this, confs => ScanBits.BitSeq(qscan[u], |directories|))
    }

    /** What the editor's data stand for. */
    ghost function Abstract(): (st: D.State)
      requires Valid()
      reads this, confs, set c | c in confs :: c.subs
      ensures D.Aligned(st) && st.dirs == directories
    {
      D.State(directories, Scans(), MemberLists())
    }

    constructor (maxDirs: nat, dloadsDir: string, confs: seq<ConfRec>, directories: seq<D.DirRec>,
                 qscan: Records)
      requires |directories| <= maxDirs <= 0xFFFF
      requires Long(qscan, maxDirs)
      requires forall c :: 0 <= c < |confs| ==> confs[c].Valid()
      requires forall c, d :: 0 <= c < d < |confs| ==> confs[c] != confs[d] && confs[c].subs != confs[d].subs
      ensures Valid() && this.maxDirs == maxDirs && this.confs == confs
      ensures this.directories == directories && this.qscan == qscan
    {
      this.maxDirs, this.dloadsDir, this.confs := maxDirs, dloadsDir, confs;
      this.directories, this.qscan := directories, qscan;
    }

    // ----- update_conf -----

    method ConfsInsert(sub1: subconf)
      requires ConfsValid()
      modifies set c | c in confs :: c.subs
      ensures ConfsValid()
      ensures forall c :: 0 <= c < |confs| ==> confs[c].Members() == ShiftedUp(old(confs[c].Members()), sub1)
    {
      hide ShiftedUp;
      var i := 0;
      while i < |confs|
        invariant 0 <= i <= |confs| && ConfsValid()
        invariant forall c :: 0 <= c < i ==> confs[c].Members() == ShiftedUp(old(confs[c].Members()), sub1)
        invariant forall c :: i <= c < |confs| ==> confs[c].Members() == old(confs[c].Members())
      {
        confs[i].MakeRoom(sub1);
        i := i + 1;
      }
    }

    method ConfDelete(i: nat, sub1: subconf, areas: nat)
      requires ConfsValid() && i < |confs| && sub1 < areas
      modifies confs`num, confs[i].subs
      ensures ConfsValid()
      ensures confs[i].Members() == ShiftedDown(RemoveFirst(old(confs[i].Members()), sub1), sub1)
      ensures forall c :: 0 <= c < |confs| && c != i ==> confs[c].Members() == old(confs[c].Members())
    {
      hide ShiftedDown, RemoveFirst;
      confs[i].CloseGap(sub1, areas);
    }

    method ConfsDelete(sub1: subconf, areas: nat)
      requires ConfsValid() && sub1 < areas
      modifies confs`num, set c | c in confs :: c.subs
      ensures ConfsValid()
      ensures forall c :: 0 <= c < |confs| ==>
        confs[c].Members() == ShiftedDown(RemoveFirst(old(confs[c].Members()), sub1), sub1)
    {
      hide ShiftedDown, RemoveFirst;
      var i := 0;
      while i < |confs|
        invariant 0 <= i <= |confs| && ConfsValid()
        invariant forall c :: 0 <= c < i ==>
          confs[c].Members() == ShiftedDown(RemoveFirst(old(confs[c].Members()), sub1), sub1)
        invariant forall c :: i <= c < |confs| ==> confs[c].Members() == old(confs[c].Members())
      {
        ConfDelete(i, sub1, areas);
        i := i + 1;
      }
    }

    method ConfsSwap(sub1: subconf, sub2: subconf)
      requires ConfsValid()
      modifies set c | c in confs :: c.subs
      ensures ConfsValid()
      ensures forall c :: 0 <= c < |confs| ==> confs[c].Members() == Exchanged(old(confs[c].Members()), sub1, sub2)
    {
      hide Exchanged;
      var i := 0;
      while i < |confs|
        invariant 0 <= i <= |confs| && ConfsValid()
        invariant forall c :: 0 <= c < i ==> confs[c].Members() == Exchanged(old(confs[c].Members()), sub1, sub2)
        invariant forall c :: i <= c < |confs| ==> confs[c].Members() == old(confs[c].Members())
      {
        confs[i].Exchange(sub1, sub2);
        i := i + 1;
      }
    }

    // ----- the users' records: read, edit in a temporary buffer, write back -----

    method ScansInsert(n: nat)
      requires n < |directories| <= maxDirs
      requires Long(qscan, maxDirs)
      modifies this`qscan
      ensures AllInserted(old(qscan), qscan, n, |directories|, maxDirs)
      ensures Long(qscan, maxDirs) && |qscan| == |old(qscan)|
      ensures forall u :: 0 <= u < |qscan| ==>
        ScanBits.BitSeq(qscan[u], |directories|)
          == InsertAt(ScanBits.BitSeq(old(qscan)[u], |directories| - 1), n, true)
    {
      hide ScanBits.BitSeq, ScanBits.InsertWords;
      var i := 0;
      while i < |qscan|
        invariant 0 <= i <= |qscan| == |old(qscan)|
        invariant forall u :: 0 <= u < |qscan| ==> |qscan[u]| == |old(qscan)[u]|
        invariant forall u :: 0 <= u < i ==> qscan[u] == ScanBits.InsertWords(old(qscan)[u], n, |directories|)
        invariant forall u :: i <= u < |qscan| ==> qscan[u] == old(qscan)[u]
      {
        var words := Load(qscan[i]);
        ScanBits.InsertBit(words, n, |directories|);
        qscan := qscan[i := words[..]];
        i := i + 1;
      }
      forall u | 0 <= u < |qscan|
        ensures ScanBits.BitSeq(qscan[u], |directories|)
          == InsertAt(ScanBits.BitSeq(old(qscan)[u], |directories| - 1), n, true)
      {
        ScanBits.InsertRefines(old(qscan)[u], n, |directories| - 1);
      }
    }

    method ScansDelete(n: nat)
      requires n <= |directories| < maxDirs
      requires Long(qscan, maxDirs)
      modifies this`qscan
      ensures AllDeleted(old(qscan), qscan, n, |directories|, maxDirs)
      ensures Long(qscan, maxDirs) && |qscan| == |old(qscan)|
      ensures forall u :: 0 <= u < |qscan| ==>
        ScanBits.BitSeq(qscan[u], |directories|)
          == RemoveAt(ScanBits.BitSeq(old(qscan)[u], |directories| + 1), n)
    {
      hide ScanBits.BitSeq, ScanBits.DeleteWords;
      var i := 0;
      while i < |qscan|
        invariant 0 <= i <= |qscan| == |old(qscan)|
        invariant forall u :: 0 <= u < |qscan| ==> |qscan[u]| == |old(qscan)[u]|
        invariant forall u :: 0 <= u < i ==> qscan[u] == ScanBits.DeleteWords(old(qscan)[u], n, |directories|)
        invariant forall u :: i <= u < |qscan| ==> qscan[u] == old(qscan)[u]
      {
        var words := Load(qscan[i]);
        ScanBits.DeleteBit(words, n, |directories|);
        qscan := qscan[i := words[..]];
        i := i + 1;
      }
      forall u | 0 <= u < |qscan|
        ensures ScanBits.BitSeq(qscan[u], |directories|)
          == RemoveAt(ScanBits.BitSeq(old(qscan)[u], |directories| + 1), n)
      {
        ScanBits.DeleteRefines(old(qscan)[u], n, |directories| + 1);
      }
    }

    method ScansSwap(dir1: nat, dir2: nat)
      requires dir1 < |directories| && dir2 < |directories| <= maxDirs
      requires Long(qscan, maxDirs)
      modifies this`qscan
      ensures AllSwapped(old(qscan), qscan, dir1, dir2, maxDirs)
      ensures Long(qscan, maxDirs) && |qscan| == |old(qscan)|
      ensures forall u :: 0 <= u < |qscan| ==>
        ScanBits.BitSeq(qscan[u], |directories|)
          == SwapAt(ScanBits.BitSeq(old(qscan)[u], |directories|), dir1, dir2)
    {
      hide ScanBits.BitSeq, ScanBits.SwapWords, ScanBits.Exchanged;
      var i := 0;
      while i < |qscan|
        invariant 0 <= i <= |qscan| == |old(qscan)|
        invariant forall u :: 0 <= u < |qscan| ==> |qscan[u]| == |old(qscan)[u]|
        invariant forall u :: 0 <= u < i ==> qscan[u] == ScanBits.SwapWords(old(qscan)[u], dir1, dir2)
        invariant forall u :: i <= u < |qscan| ==> qscan[u] == old(qscan)[u]
      {
        var words := Load(qscan[i]);
        ScanBits.SwapBits(words, dir1, dir2);
        qscan := qscan[i := words[..]];
        i := i + 1;
      }
      forall u | 0 <= u < |qscan|
        ensures ScanBits.BitSeq(qscan[u], |directories|)
          == SwapAt(ScanBits.BitSeq(old(qscan)[u], |directories|), dir1, dir2)
      {
        ScanBits.SwapExchanges(old(qscan)[u], dir1, dir2);
        ScanBits.ExchangeRefines(old(qscan)[u], qscan[u], dir1, dir2, |directories|);
      }
    }

    /** `read_qscn` into the temporary buffer. */
    method Load(record: seq<bv32>) returns (words: array<bv32>)
      ensures fresh(words) && words[..] == record
    {
      words := new bv32[|record|](i requires 0 <= i < |record| => record[i]);
    }

    // ----- the three edits and the move -----

    lemma StandsFor(st: D.State)
      requires Valid() && D.Aligned(st) && directories == st.dirs
      requires |st.confs| == |confs| && forall c :: 0 <= c < |confs| ==> confs[c].Members() == st.confs[c]
      requires |st.scans| == |qscan|
      requires forall u :: 0 <= u < |qscan| ==> ScanBits.BitSeq(qscan[u], |directories|) == st.scans[u]
      ensures Abstract() == st
    {
      hide ScanBits.BitSeq;
      assert MemberLists() == st.confs;
      assert Scans() == st.scans;
    }

    lemma Parts()
      requires Valid()
      ensures var st := Abstract();
        && |st.confs| == |confs| && (forall c :: 0 <= c < |confs| ==> st.confs[c] == confs[c].Members())
        && |st.scans| == |qscan|
        && forall u :: 0 <= u < |qscan| ==> st.scans[u] == ScanBits.BitSeq(qscan[u], |directories|)
    {
      hide ScanBits.BitSeq;
    }

    /** `insert_dir`. Its callers first check that the table is not full. */
    method InsertDir(n: nat)
      requires Valid() && |directories| < maxDirs
      modifies this`directories, this`qscan, set c | c in confs :: c.subs
      ensures Valid() && Abstract() == D.InsertDir(old(Abstract()), n, D.NewDir(dloadsDir))
      ensures n <= |old(directories)| ==>
        directories[n] == D.DirRec("** NEW DIR **", "NONAME", dloadsDir, 10, 0, 50, 0, 0, 0)
      ensures n > |old(directories)| ==> qscan == old(qscan)
      ensures n <= |old(directories)| ==> AllInserted(old(qscan), qscan, n, |directories|, maxDirs)
      ensures |old(directories)| + 1 < 32 * DirWords(maxDirs) ==> TailsKept(old(qscan), qscan, DirWords(maxDirs))
    {
      if n > |directories| {
        return;
      }
      hide AllInserted, TailsKept, Long, DirWords, ShiftedUp, ScanBits.BitSeq, InsertAt, D.Aligned;
      ghost var before := Abstract();
      ConfsInsert(n);
      directories := InsertAt(directories, n, D.NewDir(dloadsDir));
      ScansInsert(n);
      InsertTails(old(qscan), qscan, n, |directories|, maxDirs);
      ghost var after := D.InsertDir(before, n, D.NewDir(dloadsDir));
      StandsFor(after);
    }

    /** The three edits of `delete_dir`. */
    method TakeOut(n: nat)
      requires Valid() && n < |directories|
      modifies this`directories, this`qscan, confs`num, set c | c in confs :: c.subs
      ensures Valid() && directories == RemoveAt(old(directories), n)
      ensures AllDeleted(old(qscan), qscan, n, |directories|, maxDirs) && |qscan| == |old(qscan)|
      ensures forall c :: 0 <= c < |confs| ==>
        confs[c].Members() == ShiftedDown(RemoveFirst(old(confs[c].Members()), n), n)
      ensures forall u :: 0 <= u < |qscan| ==>
        ScanBits.BitSeq(qscan[u], |directories|)
          == RemoveAt(ScanBits.BitSeq(old(qscan)[u], |directories| + 1), n)
    {
      hide AllDeleted, Long, ShiftedDown, RemoveFirst, ScanBits.BitSeq, RemoveAt, ConfsValid;
      ConfsDelete(n, |directories|);
      directories := RemoveAt(directories, n);
      ScansDelete(n);
    }

    /** `delete_dir`. */
    method DeleteDir(n: nat)
      requires Valid()
      modifies this`directories, this`qscan, confs`num, set c | c in confs :: c.subs
      ensures Valid() && Abstract() == D.DeleteDir(old(Abstract()), n)
      ensures n < |old(directories)| ==> AllDeleted(old(qscan), qscan, n, |directories|, maxDirs)
      ensures TailsKept(old(qscan), qscan, DirWords(maxDirs))
    {
      hide AllDeleted, TailsKept, Long, DirWords, ShiftedDown, RemoveFirst, ScanBits.BitSeq, RemoveAt, D.Aligned;
      hide D.DeleteDir, Abstract, MemberLists, Scans, ConfsValid;
      ghost var before := Abstract();
      if n >= |directories| {
        D.DeleteRefused(before, n);
        SameTails(qscan, DirWords(maxDirs));
        return;
      }
      Parts();
      D.DeleteParts(before, n);
      TakeOut(n);
      DeleteTails(old(qscan), qscan, n, |directories|, maxDirs);
      StandsFor(D.DeleteDir(before, n));
    }

    /** `swap_dirs`. */
    method SwapDirs(dir1: nat, dir2: nat)
      requires Valid()
      modifies this`directories, this`qscan, set c | c in confs :: c.subs
      ensures Valid() && Abstract() == D.SwapDirs(old(Abstract()), dir1, dir2)
      ensures dir1 < |directories| && dir2 < |directories| ==> AllSwapped(old(qscan), qscan, dir1, dir2, maxDirs)
      ensures TailsKept(old(qscan), qscan, DirWords(maxDirs))
    {
      if dir1 >= |directories| || dir2 >= |directories| {
        assert TailsKept(qscan, qscan, DirWords(maxDirs));
        return;
      }
      hide AllSwapped, TailsKept, Long, DirWords, Exchanged, Wrap, ScanBits.BitSeq, SwapAt, D.Aligned;
      ghost var before := Abstract();
      ConfsSwap(Wrap(dir1), Wrap(dir2));
      ScansSwap(dir1, dir2);
      SwapTails(old(qscan), qscan, dir1, dir2, maxDirs);
      directories := SwapAt(directories, dir1, dir2);
      ghost var after := D.SwapDirs(before, dir1, dir2);
      StandsFor(after);
    }

    /** The 'S' branch of `dlboardedit`: take area `i1` and put it before area `i2`. */
    method MoveDir(i1: nat, i2: nat)
      requires Valid()
      modifies this`directories, this`qscan, confs`num, set c | c in confs :: c.subs
      ensures Valid() && Abstract() == D.MoveDir(old(Abstract()), i1, i2, D.NewDir(dloadsDir), maxDirs)
      ensures if D.MoveAllowed(old(Abstract()), i1, i2, maxDirs)
        then AllMoved(old(qscan), qscan, D.Pushed(i1, i2), i2, |directories|, maxDirs)
        else qscan == old(qscan)
    {
      hide D.InsertDir, D.SwapDirs, D.DeleteDir, D.Aligned, Valid, Abstract, TailsKept;
      hide AllInserted, AllSwapped, AllDeleted, AllMoved;
      if |directories| < maxDirs {
        if i1 >= |directories| {
          return;
        }
        if i2 % 32 == 0 || i2 > |directories| || i1 == i2 {
          return;
        }
        var from := i1;
        if i2 < from {
          from := from + 1;
        }
        Room();
        D.InsertedLength(Abstract(), i2, D.NewDir(dloadsDir));
        InsertDir(i2);
        ghost var b := qscan;
        Room();
        D.SwappedLength(Abstract(), from, i2);
        SwapDirs(from, i2);
        ghost var c := qscan;
        Room();
        D.DeletedLength(Abstract(), from);
        DeleteDir(from);
        MoveTails(old(qscan), b, c, qscan, from, i2, |directories|, maxDirs);
      }
    }

    lemma Room()
      requires Valid()
      ensures Long(qscan, maxDirs) && |directories| <= maxDirs
    {
    }

    /** `modify_dir`: the sysop fills in a record. */
    method ModifyDir(n: nat, rec: D.DirRec)
      requires Valid()
      modifies this`directories
      ensures Valid() && Abstract() == D.ModifyDir(old(Abstract()), n, rec)
    {
      if n < |directories| {
        directories := directories[n := rec];
      }
    }

    /** The end of the 'I' branch: the new area goes into conference `c`. */
    method HouseDir(n: nat, c: nat, step: nat)
      requires Valid() && step > 0 && n < |directories|
      modifies confs, set c | c in confs :: c.subs
      ensures Valid() && Abstract() == D.HouseDir(old(Abstract()), n, c)
      ensures qscan == old(qscan)
    {
      if c >= |confs| {
        return;
      }
      hide AddMembers, FirstIndex;
      var at := confs[c].InConference(n);
      HousedAlready(confs[c].Members(), n, |directories|);
      if at < 0 {
        confs[c].AddSubConf([n], |directories|, step);
      }
      ghost var after := D.HouseDir(old(Abstract()), n, c);
      forall k | 0 <= k < |confs|
        ensures MemberLists()[k] == after.confs[k]
      {
        if k != c { assert confs[k] != confs[c]; }
      }
      assert MemberLists() == after.confs;
    }
  }

  lemma HousedAlready(s: seq<subconf>, n: nat, areas: nat)
    requires n < areas <= 0xFFFF
    ensures n in s ==> AddMembers(s, [n], areas) == s
  {
    AddOne(s, [n], areas);
    AddListStep(s, [n][1..], areas);
  }
}
