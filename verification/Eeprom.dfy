/**
 eeprom.c: EEPROM emulation on two flash pages. Every flash operation may fail without effect and
 every caller then returns at once, so "the operation fails" and "power is lost just before it"
 leave the same flash. A contract clause for a failed call is therefore a statement about a power
 loss between any two flash operations of that call.
 */
module Eeprom {
  import opened EepromLog

  datatype Status = FlashComplete | FlashError | PageFull | NoValidPage
  datatype Operation = ReadFromValidPage | WriteInValidPage
  datatype PageId = Page0 | Page1 | None

  /** What one call of the append routine did to the page it selected. */
  ghost predicate AppendOutcome(before: Page, after: Page, v: HalfWord, d: HalfWord, s: Status) {
    match s
    case FlashComplete => Used(before) < Slots(before) && after == AppendRecord(before, v, d)
    case FlashError => Used(before) < Slots(before) && (after == before || after == HalfAppend(before, d))
    case PageFull => Used(before) == Slots(before) && after == before
    case NoValidPage => false
  }

  /** The page selected for writing: a receiving page beats a valid one. */
  ghost function WriteTarget(s: Flash): PageId {
    var h0, h1 := s.p0[0], s.p1[0];
    if h0 != VALID_PAGE && h1 != VALID_PAGE then None
    else if h1 == VALID_PAGE && h0 != RECEIVE_DATA then Page1
    else if h1 == VALID_PAGE then Page0
    else if h1 == RECEIVE_DATA then Page1 else Page0
  }

  /** What one call of the append routine did to the flash. */
  ghost predicate Appended(s: Flash, t: Flash, v: HalfWord, d: HalfWord, st: Status) {
    match WriteTarget(s)
    case None => st == NoValidPage && t == s
    case Page0 => AppendOutcome(s.p0, t.p0, v, d, st) && t.p1 == s.p1
    case Page1 => AppendOutcome(s.p1, t.p1, v, d, st) && t.p0 == s.p0
  }

  /** The pages whose headers make them logs are logs. Any combination of headers is possible. */
  ghost predicate Sane(s: Flash) {
    && (s.p0[0] in {VALID_PAGE, RECEIVE_DATA} ==> PrefixUsed(s.p0))
    && (s.p1[0] in {VALID_PAGE, RECEIVE_DATA} ==> PrefixUsed(s.p1))
  }

  /** A page other than the one reads come from takes the appended records. */
  ghost predicate Split(s: Flash) {
    IsPending(s) || BothValid(s)
  }

  ghost function Target(s: Flash): Page {
    if WriteTarget(s) == Page0 then s.p0 else s.p1
  }

  /** A split store is not between operations, and marking its target page again changes nothing. */
  lemma RemarkSplit(s: Flash)
    requires Split(s)
    ensures !Normal(s) && Target(s) == if s.p0[0] == VALID_PAGE then s.p1 else s.p0
    ensures Target(s)[0 := Programmed(Target(s)[0], RECEIVE_DATA)] == Target(s)
  {
    RemarkSpec();
  }

  /** Appending to the receiving page moves the transfer towards the same goal. */
  lemma TransferStep(s: Flash, t: Flash, tab: seq<HalfWord>, u: HalfWord, d: HalfWord, st: Status)
    requires InTransfer(s, tab) && u != ERASED && Appended(s, t, u, d, st)
    requires Used(Receiver(s)) == 1 || (u in Recovered(s, tab) && Recovered(s, tab)[u] == d)
    ensures InTransfer(t, tab) && t.p0[0] == s.p0[0] && t.p1[0] == s.p1[0] && Source(t) == Source(s)
    ensures Used(Receiver(t)) <= Used(Receiver(s)) + 1
    ensures Receiver(s)[3] != ERASED ==> Receiver(t)[3] == Receiver(s)[3]
    ensures Recovered(t, tab) == if st == FlashComplete then Recovered(s, tab)[u := d] else Recovered(s, tab)
    ensures st == FlashComplete ==> Contents(Receiver(t)) == Contents(Receiver(s))[u := d]
    ensures st == FlashComplete && Used(Receiver(s)) == 1 ==> Receiver(t)[3] == u
    ensures st == PageFull ==> Used(Receiver(s)) == Slots(Receiver(s))
    ensures st != NoValidPage
  {
    var v, r := Source(s), Receiver(s);
    assert !BlankSlot(r, 0);
    if Used(r) < Slots(r) {
      TransferAppend(v, r, tab, u, d);
      TransferTornAppend(v, r, tab, d);
      if r[3] != ERASED {
        assert Used(r) != 1 by {
          assert !BlankSlot(r, 1);
        }
      }
    }
  }

  /** Marking the blank page as receiving starts a transfer of the table variables. */
  lemma TransferStart(s: Flash, t: Flash, tab: seq<HalfWord>)
    requires Normal(s)
    requires if s.p0[0] == VALID_PAGE then t.p0 == s.p0 && t.p1 == s.p1[0 := RECEIVE_DATA]
             else t.p1 == s.p1 && t.p0 == s.p0[0 := RECEIVE_DATA]
    ensures InTransfer(t, tab) && Source(t) == Source(s) && Used(Receiver(t)) == 1
    ensures Recovered(s, tab) == Contents(Source(s)) && Recovered(t, tab) == Restrict(Recovered(s, tab), tab)
  {
    FreshPageSpec(Receiver(s), RECEIVE_DATA);
    assert Receiver(t)[3] == ERASED;
  }

  lemma OutcomeSpec(p: Page, q: Page, v: HalfWord, d: HalfWord, st: Status)
    requires PrefixUsed(p) && p[0] != ERASED && v != ERASED && AppendOutcome(p, q, v, d, st)
    ensures PrefixUsed(q) && q[0] == p[0] && 1 <= Used(p) <= Used(q) <= Used(p) + 1
    ensures Contents(q) == if st == FlashComplete then Contents(p)[v := d] else Contents(p)
    ensures Used(p) > 1 || p[3] != ERASED || st != FlashComplete ==> q[3] == p[3]
    ensures Used(p) == 1 ==> p[3] == ERASED && (st == FlashComplete ==> q[3] == v)
    ensures st == FlashComplete ==> Used(q) == Used(p) + 1
    ensures st == PageFull ==> Used(p) == Slots(p)
  {
    hide Contents, Replay, PrefixUsed;
    assert !BlankSlot(p, 0);
    if Used(p) < Slots(p) {
      AppendSpec(p, v, d);
      TornAppendSpec(p, d);
    }
    if Used(p) == 1 {
      assert BlankSlot(p, 1);
    } else {
      assert !BlankSlot(p, 1);
    }
  }

  /** What one call of the append routine did, with any records on the receiving page. */
  lemma PendingStep(s: Flash, t: Flash, u: HalfWord, d: HalfWord, st: Status)
    requires IsPending(s) && u != ERASED && Appended(s, t, u, d, st)
    ensures IsPending(t) && t.p0[0] == s.p0[0] && t.p1[0] == s.p1[0] && Source(t) == Source(s)
    ensures Used(Receiver(t)) <= Used(Receiver(s)) + 1
    ensures Contents(Receiver(t)) ==
            if st == FlashComplete then Contents(Receiver(s))[u := d] else Contents(Receiver(s))
    ensures Receiver(s)[3] != ERASED || Used(Receiver(s)) > 1 || st != FlashComplete ==>
      Receiver(t)[3] == Receiver(s)[3]
    ensures Used(Receiver(s)) == 1 ==> Receiver(s)[3] == ERASED && (st == FlashComplete ==> Receiver(t)[3] == u)
    ensures st == PageFull ==> Used(Receiver(s)) == Slots(Receiver(s))
    ensures st != NoValidPage
  {
    OutcomeSpec(Receiver(s), if WriteTarget(s) == Page0 then t.p0 else t.p1, u, d, st);
    hide AppendOutcome, Contents, PrefixUsed, Used, UsedFrom;
  }

  /**
   A record written while a transfer is pending has no effect on its outcome: the table lists its address, and
   the recovery will copy the value that the valid page has for it over the record, which is not the first one.
   */
  ghost predicate Lost(s: Flash, tab: seq<HalfWord>, v: HalfWord) {
    v in tab && v in Contents(Source(s)) && Used(Receiver(s)) > 1 && v != Receiver(s)[3]
  }

  /** What one call of the append routine does to the outcome of a pending transfer. */
  lemma PendingWrite(s: Flash, t: Flash, tab: seq<HalfWord>, v: HalfWord, d: HalfWord, st: Status)
    requires IsPending(s) && v != ERASED && ERASED !in tab && Appended(s, t, v, d, st)
    ensures IsPending(t)
    ensures Outcome(t, tab) ==
            if st == FlashComplete && !Lost(s, tab, v) then Outcome(s, tab)[v := d] else Outcome(s, tab)
  {
    hide Contents, PrefixUsed, UsedFrom, Appended, Recovered;
    PendingStep(s, t, v, d, st);
    if st == FlashComplete {
      var m, n := Outcome(s, tab), Outcome(t, tab);
      var goal := if Lost(s, tab, v) then m else m[v := d];
      assert forall u :: u in goal <==> u in n;
      assert forall u :: u in goal ==> n[u] == goal[u];
    }
  }

  /** The receiving page of a pending transfer is full, and a variable still has to be copied. */
  ghost predicate Stuck(s: Flash, tab: seq<HalfWord>) {
    && IsPending(s) && Used(Receiver(s)) == Slots(Receiver(s))
    && exists u :: u in tab && u in Contents(Source(s)) && u != Receiver(s)[3]
  }

  lemma StuckStep(s: Flash, t: Flash, tab: seq<HalfWord>, v: HalfWord, d: HalfWord, st: Status)
    requires Stuck(s, tab) && Appended(s, t, v, d, st)
    ensures st == PageFull && t == s
  {
  }

  /** What copying one variable from the valid page did. */
  ghost predicate CopyOutcome(s: Flash, t: Flash, u: HalfWord, st: Status) {
    var m := Contents(Source(s));
    if u in m then Appended(s, t, u, m[u], st) else st == FlashComplete && t == s
  }

  /** What stays the same while a transfer that started from s copies at most n variables. */
  ghost predicate Stopped(s: Flash, t: Flash, tab: seq<HalfWord>, n: nat) {
    && IsPending(t) && Source(t) == Source(s) && t.p0[0] == s.p0[0] && t.p1[0] == s.p1[0]
    && Used(Receiver(t)) <= Used(Receiver(s)) + n
    && Outcome(t, tab) == Outcome(s, tab)
    && (InTransfer(s, tab) ==> InTransfer(t, tab) && Recovered(t, tab) == Recovered(s, tab))
  }

  ghost predicate NothingToCopy(s: Flash, tab: seq<HalfWord>, n: nat)
    requires n <= |tab|
  {
    forall u :: u in tab[..n] ==> u !in Contents(Source(s)) || u == Receiver(s)[3]
  }

  lemma StuckCopy(s: Flash, t: Flash, tab: seq<HalfWord>, n: nat, st: Status)
    requires n < |tab| && Stuck(s, tab) && CopyOutcome(s, t, tab[n], st) && NothingToCopy(s, tab, n)
    ensures t == s && (st == PageFull || (st == FlashComplete && NothingToCopy(s, tab, n + 1)))
  {
    var u := tab[n];
    if u in Contents(Source(s)) {
      StuckStep(s, t, tab, u, Contents(Source(s))[u], st);
    }
    assert forall w :: w in tab[..n + 1] <==> w in tab[..n] || w == u;
  }

  /** The first n variables of the table have been copied, apart from the one whose record came first. */
  ghost predicate Progress(s: Flash, t: Flash, tab: seq<HalfWord>, n: nat)
    requires n <= |tab|
  {
    && Stopped(s, t, tab, n)
    && Contents(Receiver(t)) == Resumed(Source(s), Receiver(s), tab[..n])
    && (Receiver(t)[3] == Receiver(s)[3] || (Receiver(s)[3] == ERASED && Receiver(t)[3] in tab[..n]))
  }

  lemma ResumedStep(v: Page, r: Page, tab: seq<HalfWord>, n: nat)
    requires n < |tab|
    ensures var m, c := Resumed(v, r, tab[..n]), Contents(v);
      Resumed(v, r, tab[..n + 1]) == if tab[n] in c && tab[n] != r[3] then m[tab[n] := c[tab[n]]] else m
    ensures tab[n] in tab[..n] ==> Resumed(v, r, tab[..n + 1]) == Resumed(v, r, tab[..n])
  {
    hide Contents;
    assert forall u :: u in tab[..n + 1] <==> u in tab[..n] || u == tab[n];
    var m := Resumed(v, r, tab[..n + 1]);
    if tab[n] in Contents(v) && tab[n] != r[3] {
      assert m == Resumed(v, r, tab[..n])[tab[n] := Contents(v)[tab[n]]];
    } else {
      assert m == Resumed(v, r, tab[..n]);
    }
    if tab[n] in tab[..n] {
      assert m == Resumed(v, r, tab[..n]);
    }
  }

  lemma ProgressStart(s: Flash, tab: seq<HalfWord>)
    requires IsPending(s)
    ensures Progress(s, s, tab, 0)
  {
    hide Contents, Pending;
    assert Resumed(Source(s), Receiver(s), tab[..0]) == Contents(Receiver(s));
  }

  /** Copying the next variable. */
  lemma CopyStep(s: Flash, r: Flash, t: Flash, tab: seq<HalfWord>, n: nat, st: Status)
    requires n < |tab| && ERASED !in tab && Progress(s, r, tab, n)
    requires tab[n] != Receiver(r)[3] && CopyOutcome(r, t, tab[n], st)
    ensures if st == FlashComplete then Progress(s, t, tab, n + 1) else Stopped(s, t, tab, n + 1)
    ensures st != NoValidPage && (st == PageFull ==> Used(Receiver(s)) + n >= PAGE_HALFWORDS / 2 && Stuck(t, tab))
  {
    hide Contents, Replay, Resumed, Pending, Transferring, UsedFrom, Merged, Outcome;
    ResumedStep(Source(s), Receiver(s), tab, n);
    if tab[n] in Contents(Source(r)) {
      var d := Contents(Source(r))[tab[n]];
      PendingStep(r, t, tab[n], d, st);
      CopyKeeps(r, t, tab, tab[n], st);
      if InTransfer(r, tab) {
        InGoal(r, tab, tab[n]);
        TransferStep(r, t, tab, tab[n], d, st);
      }
      assert tab[..n + 1][n] == tab[n];
    }
    assert forall u :: u in tab[..n] ==> u in tab[..n + 1];
  }

  /** Copying a variable has no effect on the outcome. */
  lemma CopyKeeps(s: Flash, t: Flash, tab: seq<HalfWord>, u: HalfWord, st: Status)
    requires IsPending(s) && ERASED !in tab && u in tab && u in Contents(Source(s)) && u != Receiver(s)[3]
    requires Appended(s, t, u, Contents(Source(s))[u], st)
    ensures Outcome(t, tab) == Outcome(s, tab)
  {
    hide Contents, Outcome, IsPending, Appended, Lost;
    var d := Contents(Source(s))[u];
    PendingWrite(s, t, tab, u, d, st);
    InOutcome(s, tab, u);
    assert Outcome(s, tab)[u := d] == Outcome(s, tab);
  }

  lemma InOutcome(s: Flash, tab: seq<HalfWord>, u: HalfWord)
    requires IsPending(s) && u in tab && u in Contents(Source(s)) && u != Receiver(s)[3]
    ensures u in Outcome(s, tab) && Outcome(s, tab)[u] == Contents(Source(s))[u]
  {
    hide Contents, PrefixUsed;
  }

  lemma InGoal(s: Flash, tab: seq<HalfWord>, u: HalfWord)
    requires InTransfer(s, tab) && u in tab && u in Contents(Source(s)) && u != Receiver(s)[3]
    ensures u in Recovered(s, tab) && Recovered(s, tab)[u] == Contents(Source(s))[u]
  {
  }

  /** The variable whose record came first is not copied. */
  lemma SkipStep(s: Flash, r: Flash, tab: seq<HalfWord>, n: nat)
    requires n < |tab| && ERASED !in tab && Progress(s, r, tab, n) && tab[n] == Receiver(r)[3]
    ensures Progress(s, r, tab, n + 1)
  {
    hide Contents, Resumed, Pending, Transferring, UsedFrom, Merged;
    ResumedStep(Source(s), Receiver(s), tab, n);
    assert tab[n] in tab;
    assert forall u :: u in tab[..n] ==> u in tab[..n + 1];
  }

  /** All variables have been copied. */
  lemma ProgressDone(s: Flash, t: Flash, tab: seq<HalfWord>)
    requires Progress(s, t, tab, |tab|) && ERASED !in tab
    ensures Contents(Receiver(t)) == Resumed(Source(s), Receiver(s), tab)
    ensures InTransfer(s, tab) ==> Contents(Receiver(t)) == Recovered(s, tab) == Recovered(t, tab)
  {
    hide Contents, Resumed, Pending, Transferring, Merged;
    assert tab[..|tab|] == tab;
    if InTransfer(s, tab) {
      ResumedIsMerged(Source(s), Receiver(s), tab);
      GoalIsMerged(s, tab);
    }
  }

  lemma GoalIsMerged(s: Flash, tab: seq<HalfWord>)
    requires InTransfer(s, tab)
    ensures Recovered(s, tab) == Merged(Contents(Source(s)), Receiver(s), tab)
  {
  }

  /** With an unknown header on page 1, a resumed copy only repeats records of page 0 on page 0. */
  lemma ForeignStep(s: Flash, t: Flash, u: HalfWord, st: Status)
    requires Foreign(s) && u != ERASED && CopyOutcome(s, t, u, st)
    ensures Foreign(t) && t.p1 == s.p1 && Contents(t.p0) == Contents(s.p0) && st != NoValidPage
  {
    var p := s.p0;
    assert !BlankSlot(p, 0);
    if u in Contents(p) && Used(p) < Slots(p) {
      AppendSpec(p, u, Contents(p)[u]);
      TornAppendSpec(p, Contents(p)[u]);
      assert Contents(p)[u := Contents(p)[u]] == Contents(p);
    }
  }

  // ----- room on the receiving page -----

  /** How many of the first n table variables the copying loop of EE_Init has to copy. */
  ghost function ToCopy(s: Flash, tab: seq<HalfWord>, n: nat): nat
    requires n <= |tab|
  {
    if n == 0 then 0
    else ToCopy(s, tab, n - 1) + if tab[n - 1] in Contents(Source(s)) && tab[n - 1] != Receiver(s)[3] then 1 else 0
  }

  /** The page that takes the copies has a free slot for each of them. */
  ghost predicate HasRoom(s: Flash, tab: seq<HalfWord>) {
    Used(Target(s)) + ToCopy(s, tab, |tab|) <= PAGE_HALFWORDS / 2
  }

  /** The loop has started from s; t is the store after the first n variables. */
  ghost predicate Follows(s: Flash, t: Flash) {
    && (IsPending(s) ==> IsPending(t) && Source(t) == Source(s) && t.p0[0] == s.p0[0] && t.p1[0] == s.p1[0])
    && (Foreign(s) ==> Foreign(t) && t.p1 == s.p1 && Contents(t.p0) == Contents(s.p0))
  }

  ghost predicate Counted(s: Flash, t: Flash, tab: seq<HalfWord>, n: nat)
    requires n <= |tab|
  {
    && Follows(s, t) && 1 <= Used(Target(s))
    && Used(Target(t)) <= Used(Target(s)) + ToCopy(s, tab, n) <= Used(Target(s)) + n
    && (Used(Target(s)) > 1 ==>
          Used(Target(t)) == Used(Target(s)) + ToCopy(s, tab, n) && Receiver(t)[3] == Receiver(s)[3])
    && (Used(Target(s)) == 1 && IsPending(s) ==> Receiver(s)[3] == ERASED)
  }

  lemma CountStart(s: Flash, tab: seq<HalfWord>)
    requires IsPending(s) || Foreign(s)
    ensures Counted(s, s, tab, 0)
  {
    hide Contents, PrefixUsed;
    var p := Target(s);
    assert !BlankSlot(p, 0);
    if Used(p) == 1 {
      assert BlankSlot(p, 1);
    }
  }

  lemma CountSkip(s: Flash, r: Flash, tab: seq<HalfWord>, n: nat)
    requires n < |tab| && ERASED !in tab && (IsPending(s) || Foreign(s)) && Counted(s, r, tab, n)
    requires tab[n] == Receiver(r)[3]
    ensures Counted(s, r, tab, n + 1)
  {
    hide Contents, PrefixUsed, UsedFrom;
  }

  lemma CountCopy(s: Flash, r: Flash, t: Flash, tab: seq<HalfWord>, n: nat, st: Status)
    requires n < |tab| == NB_OF_VAR && ERASED !in tab && (IsPending(s) || Foreign(s)) && Counted(s, r, tab, n)
    requires tab[n] != Receiver(r)[3] && CopyOutcome(r, t, tab[n], st)
    ensures st == FlashComplete ==> Counted(s, t, tab, n + 1)
    ensures st == PageFull ==> !HasRoom(s, tab)
  {
    hide Contents, PrefixUsed, UsedFrom, Used, Appended, IsPending, Foreign;
    if Foreign(s) {
      ForeignStep(r, t, tab[n], st);
    }
    if tab[n] in Contents(Source(r)) {
      TargetStep(r, t, tab[n], Contents(Source(r))[tab[n]], st);
    }
    MoreToCopy(s, tab, n + 1);
    SameSource(s, r);
  }

  lemma SameSource(s: Flash, r: Flash)
    requires Follows(s, r) && (IsPending(s) || Foreign(s))
    ensures IsPending(r) || Foreign(r)
    ensures Contents(Source(r)) == Contents(Source(s)) && (Foreign(s) ==> Receiver(r) == Receiver(s))
  {
    hide Contents, PrefixUsed;
  }

  /** What one call of the append routine does to the page that takes the copies. */
  lemma TargetStep(r: Flash, t: Flash, u: HalfWord, d: HalfWord, st: Status)
    requires (IsPending(r) || Foreign(r)) && u != ERASED && Appended(r, t, u, d, st)
    ensures IsPending(r) ==> IsPending(t) && Source(t) == Source(r) && t.p0[0] == r.p0[0] && t.p1[0] == r.p1[0]
    ensures st == FlashComplete ==> Used(Target(t)) == Used(Target(r)) + 1
    ensures st == FlashComplete && Used(Target(r)) > 1 ==> Receiver(t)[3] == Receiver(r)[3]
    ensures st == PageFull ==> t == r && Used(Target(r)) == PAGE_HALFWORDS / 2
  {
    hide Contents, PrefixUsed, UsedFrom, Used;
    if IsPending(r) {
      PendingStep(r, t, u, d, st);
    }
    OutcomeSpec(Target(r), if WriteTarget(r) == Page0 then t.p0 else t.p1, u, d, st);
  }

  lemma {:induction false} MoreToCopy(s: Flash, tab: seq<HalfWord>, n: nat)
    requires n <= |tab|
    ensures ToCopy(s, tab, n) <= ToCopy(s, tab, |tab|)
    decreases |tab| - n
  {
    hide Contents;
    if n < |tab| {
      MoreToCopy(s, tab, n + 1);
    }
  }

  lemma CountDone(s: Flash, t: Flash, tab: seq<HalfWord>)
    requires Counted(s, t, tab, |tab|) && |tab| == NB_OF_VAR
    ensures HasRoom(s, tab)
  {
    hide Contents, PrefixUsed;
  }

  /** After a finished transfer the source may be erased and the receiver marked valid. */
  lemma TransferFinish(s: Flash, t: Flash, w: Flash, tab: seq<HalfWord>)
    requires InTransfer(s, tab) && Contents(Receiver(s)) == Recovered(s, tab)
    requires if s.p0[0] == VALID_PAGE then AllBlank(t.p0) && t.p1 == s.p1 else AllBlank(t.p1) && t.p0 == s.p0
    requires if s.p0[0] == VALID_PAGE then w.p0 == t.p0 && w.p1 == t.p1[0 := VALID_PAGE]
             else w.p1 == t.p1 && w.p0 == t.p0[0 := VALID_PAGE]
    ensures Consistent(t, tab) && Recovered(t, tab) == Recovered(s, tab)
    ensures Normal(w) && Recovered(w, tab) == Recovered(s, tab)
  {
    HeaderSpec(Receiver(s), VALID_PAGE);
  }

  /** Every state a write of (v, d) into the store s can leave behind when power is lost on the way. */
  ghost predicate Interrupted(s: Flash, t: Flash, tab: seq<HalfWord>, v: HalfWord, d: HalfWord) {
    var m := Recovered(s, tab);
    && Consistent(t, tab) && !BothValid(t) && !BothErased(t)
    && Recovered(t, tab) in {m, Restrict(m, tab), Restrict(m, tab)[v := d]}
    && (InTransfer(t, tab) ==> Used(Receiver(t)) <= NB_OF_VAR + 2)
  }

  /** The map after a completed write: a page transfer drops what the table does not list. */
  ghost function Written(s: Flash, tab: seq<HalfWord>, v: HalfWord, d: HalfWord): Map {
    var m := Recovered(s, tab);
    (if Used(Source(s)) < Slots(Source(s)) then m else Restrict(m, tab))[v := d]
  }

  /** What one call of the append routine does to a store between operations. */
  lemma NormalWrite(s: Flash, t: Flash, tab: seq<HalfWord>, v: HalfWord, d: HalfWord, st: Status)
    requires Normal(s) && v != ERASED && Appended(s, t, v, d, st)
    ensures st == FlashComplete ==> Normal(t) && Recovered(t, tab) == Written(s, tab, v, d)
    ensures st == FlashError ==> Interrupted(s, t, tab, v, d)
    ensures st == PageFull ==> t == s && Written(s, tab, v, d) == Restrict(Recovered(s, tab), tab)[v := d]
    ensures st != NoValidPage
  {
    hide Contents, UsedFrom, PrefixUsed, Merged, BlankSlot;
    OutcomeSpec(Source(s), if WriteTarget(s) == Page0 then t.p0 else t.p1, v, d, st);
  }

  /**
   What a failed EE_Init leaves behind when it was not formatting. The value survives except
   in one window: the receiver of a resumed transfer is marked valid, the source not yet erased.
   */
  ghost predicate InitFailed(s: Flash, t: Flash, tab: seq<HalfWord>) {
    && Consistent(t, tab)
    && (Recovered(t, tab) == Recovered(s, tab) <==> (BothValid(t) ==> Recovered(s, tab) == map[]))
    && (BothValid(t) ==> InTransfer(s, tab))
    && !BothErased(t)
    && (InTransfer(t, tab) ==> InTransfer(s, tab) && Used(Receiver(t)) <= Used(Receiver(s)) + NB_OF_VAR)
  }

  /**
   What EE_Init makes of an unknown header on page 1: it takes it for a receiving page, copies the
   variables of page 0 onto page 0, marks page 1 valid and erases page 0.
   */
  ghost predicate ForeignOutcome(s: Flash, t: Flash, st: Status) {
    var marked: Page := s.p1[0 := VALID_PAGE];
    if st == FlashComplete then AllBlank(t.p0) && t.p1 == marked
    else t.p0[0] == VALID_PAGE && t.p1 in {s.p1, marked} && Contents(t.p0) == Contents(s.p0)
  }

  /** A resumed transfer that has copied everything, then marked the receiver, then erased the source. */
  lemma ResumeFinish(s: Flash, t: Flash, w: Flash, tab: seq<HalfWord>)
    requires IsPending(s)
    requires if s.p0[0] == VALID_PAGE then t.p0 == s.p0 && t.p1 == s.p1[0 := VALID_PAGE]
             else t.p1 == s.p1 && t.p0 == s.p0[0 := VALID_PAGE]
    requires if s.p0[0] == VALID_PAGE then AllBlank(w.p0) && w.p1 == t.p1 else AllBlank(w.p1) && w.p0 == t.p0
    ensures BothValid(t) && Consistent(t, tab) && Recovered(t, tab) == map[]
    ensures Normal(w) && Recovered(w, tab) == Contents(Receiver(s))
  {
    HeaderSpec(Receiver(s), VALID_PAGE);
  }

  /** Marking a fully received page valid, when the other page is blank. */
  lemma MarkValid(p: Page, blank: Page, tab: seq<HalfWord>)
    requires p[0] in {RECEIVE_DATA, VALID_PAGE} && PrefixUsed(p) && AllBlank(blank)
    ensures var q: Page := p[0 := VALID_PAGE];
      && Normal(Flash(q, blank)) && Recovered(Flash(q, blank), tab) == Contents(p)
      && Normal(Flash(blank, q)) && Recovered(Flash(blank, q), tab) == Contents(p)
  {
    HeaderSpec(p, VALID_PAGE);
  }

  lemma TransferIsPending(s: Flash, tab: seq<HalfWord>)
    ensures InTransfer(s, tab) ==> IsPending(s)
    ensures IsPending(s) ==> Sane(s) && !Foreign(s) && !BothValid(s) && !Formats(s) && !Normal(s)
    ensures Stuck(s, tab) ==> IsPending(s)
  {
  }

  lemma StoppedFails(s: Flash, t: Flash, tab: seq<HalfWord>)
    requires InTransfer(s, tab) && Stopped(s, t, tab, NB_OF_VAR)
    ensures InitFailed(s, t, tab)
  {
    hide Contents, PrefixUsed, UsedFrom, Recovered;
  }

  /** The receiver of a resumed transfer has been marked, the source not yet erased. */
  lemma WindowFails(s: Flash, d: Flash, t: Flash, tab: seq<HalfWord>)
    requires InTransfer(s, tab) && Stopped(s, d, tab, NB_OF_VAR)
    requires if d.p0[0] == VALID_PAGE then t.p0 == d.p0 && t.p1 == d.p1[0 := VALID_PAGE]
             else t.p1 == d.p1 && t.p0 == d.p0[0 := VALID_PAGE]
    ensures InitFailed(s, t, tab)
  {
    hide Contents, UsedFrom;
    HeaderSpec(Receiver(d), VALID_PAGE);
  }

  /** Two valid pages, both of them logs. */
  ghost predicate TwoLogs(s: Flash) {
    BothValid(s) && PrefixUsed(s.p0) && PrefixUsed(s.p1)
  }

  lemma MarkedTwice(s: Flash, t: Flash)
    requires IsPending(s)
    requires if s.p0[0] == VALID_PAGE then t.p0 == s.p0 && t.p1 == s.p1[0 := VALID_PAGE]
             else t.p1 == s.p1 && t.p0 == s.p0[0 := VALID_PAGE]
    ensures TwoLogs(t)
  {
    HeaderSpec(Receiver(s), VALID_PAGE);
  }

  ghost predicate FormatCut(s: Flash, t: Flash) {
    t.p1 == s.p1 && (t.p0 == s.p0 || AllBlank(t.p0) || (exists p: Page :: AllBlank(p) && t.p0 == p[0 := VALID_PAGE]))
  }

  /**
   The map after a format that was cut short: empty, unless page 0 was erased and page 1 was marked, and
   then what page 1 holds; or its first record, when page 1 was receiving and page 0 has been marked again.
   */
  ghost function CutValue(s: Flash, t: Flash): Map {
    if t.p0[0] == ERASED && s.p1[0] in {VALID_PAGE, RECEIVE_DATA} then Contents(s.p1)
    else if t.p0 != s.p0 && t.p0[0] == VALID_PAGE && s.p1[0] == RECEIVE_DATA then FirstRecord(s.p1)
    else map[]
  }

  lemma FormatsEmpty(s: Flash, tab: seq<HalfWord>)
    requires Formats(s)
    ensures Recovered(s, tab) == map[]
  {
  }

  lemma FormatCutSpec(s: Flash, t: Flash, tab: seq<HalfWord>)
    requires Formats(s) && FormatCut(s, t)
    ensures Recovered(s, tab) == map[] && Recovered(t, tab) == CutValue(s, t)
    ensures Consistent(s, tab) ==> Consistent(t, tab)
  {
    if p: Page :| AllBlank(p) && t.p0 == p[0 := VALID_PAGE] {
      FreshPageSpec(p, VALID_PAGE);
      assert Restrict(map[], tab) == map[];
    }
  }

  /** A write of (v, d) into a store with a waiting transfer is undone by the recovery. */
  ghost predicate Overwritten(s: Flash, tab: seq<HalfWord>, v: HalfWord, d: HalfWord) {
    Lost(s, tab, v) && Contents(Source(s))[v] != d
  }

  /** What completing the transfer makes of a record that came while it was pending. */
  lemma WriteLost(s: Flash, t: Flash, tab: seq<HalfWord>, v: HalfWord, d: HalfWord)
    requires IsPending(s) && v != ERASED && ERASED !in tab && Appended(s, t, v, d, FlashComplete)
    ensures IsPending(t)
    ensures var m := Outcome(t, tab);
      && v in m && (m[v] == d <==> !Overwritten(s, tab, v, d))
      && (m[v] != d ==> v in Contents(Source(s)) && m[v] == Contents(Source(s))[v])
  {
    PendingWrite(s, t, tab, v, d, FlashComplete);
    hide Contents, PrefixUsed, UsedFrom, Merged, Appended, Transferring;
  }

  /** A store whose transfer was cut after the record w = e: the valid page holds v = d. */
  lemma CutStore(tab: seq<HalfWord>, v: HalfWord, d: HalfWord, w: HalfWord, e: HalfWord) returns (s: Flash)
    requires v != ERASED && w != ERASED && v in tab && v != w
    ensures InTransfer(s, tab) && IsPending(s) && Recovered(s, tab) == map[v := d, w := e]
    ensures Contents(Source(s)) == map[v := d] && Contents(Receiver(s)) == map[w := e]
    ensures Used(Receiver(s)) == 2 && Receiver(s)[3] == w && s.p1 == Receiver(s) && WriteTarget(s) == Page1
  {
    var blank: Page := seq(PAGE_HALFWORDS, i => ERASED);
    FreshPageSpec(blank, VALID_PAGE);
    FreshPageSpec(blank, RECEIVE_DATA);
    AppendSpec(blank[0 := VALID_PAGE], v, d);
    AppendSpec(blank[0 := RECEIVE_DATA], w, e);
    s := Flash(AppendRecord(blank[0 := VALID_PAGE], v, d), AppendRecord(blank[0 := RECEIVE_DATA], w, e));
  }

  /** In such a store a write of another value to v completes, with store t, and is lost. */
  lemma CutTransfer(tab: seq<HalfWord>, v: HalfWord, d: HalfWord, w: HalfWord, e: HalfWord, d': HalfWord)
    returns (s: Flash, t: Flash)
    requires v != ERASED && w != ERASED && v in tab && v != w && d' != d
    ensures InTransfer(s, tab) && Contents(Source(s)) == map[v := d] && Contents(Receiver(s)) == map[w := e]
    ensures Appended(s, t, v, d', FlashComplete) && Overwritten(s, tab, v, d')
  {
    hide Contents, UsedFrom, PrefixUsed, Transferring;
    s := CutStore(tab, v, d, w, e);
    t := s.(p1 := AppendRecord(s.p1, v, d'));
  }

  /**
   Recoveries that are cut after their first copy, of v, each use up one slot of the receiving page, until the
   store is stuck. trace has the store after each of them.
   */
  lemma {:induction false} CutsLeadToStuck(s: Flash, tab: seq<HalfWord>, v: HalfWord) returns (trace: seq<Flash>)
    requires IsPending(s) && v != ERASED && v in tab && v in Contents(Source(s))
    requires Used(Receiver(s)) > 1 && v != Receiver(s)[3]
    ensures trace != [] && trace[0] == s && Stuck(trace[|trace| - 1], tab)
    ensures forall i :: 0 < i < |trace| ==> CopyOutcome(trace[i - 1], trace[i], v, FlashComplete)
    decreases Slots(Receiver(s)) - Used(Receiver(s))
  {
    hide Contents, UsedFrom, PrefixUsed;
    var r, d := Receiver(s), Contents(Source(s))[v];
    if Used(r) == Slots(r) {
      trace := [s];
    } else {
      OutcomeSpec(r, AppendRecord(r, v, d), v, d, FlashComplete);
      MoreUsed(r, v, d);
      var t := if s.p0[0] == VALID_PAGE then s.(p1 := AppendRecord(r, v, d)) else s.(p0 := AppendRecord(r, v, d));
      var rest := CutsLeadToStuck(t, tab, v);
      trace := [s] + rest;
    }
  }

  lemma MoreUsed(p: Page, v: HalfWord, d: HalfWord)
    requires PrefixUsed(p) && 1 <= Used(p) < Slots(p) && v != ERASED
    ensures Used(AppendRecord(p, v, d)) == Used(p) + 1
  {
    AppendSpec(p, v, d);
  }

  /** Such a run, from a store whose transfer was cut after its first record. */
  lemma StuckRun(tab: seq<HalfWord>, v: HalfWord, d: HalfWord, w: HalfWord, e: HalfWord) returns (trace: seq<Flash>)
    requires v != ERASED && w != ERASED && v in tab && v != w
    ensures trace != [] && InTransfer(trace[0], tab) && Recovered(trace[0], tab) == map[v := d, w := e]
    ensures forall i :: 0 < i < |trace| ==> CopyOutcome(trace[i - 1], trace[i], v, FlashComplete)
    ensures Stuck(trace[|trace| - 1], tab)
  {
    hide Contents, UsedFrom, PrefixUsed, Stuck, CopyOutcome, Transferring;
    var s := CutStore(tab, v, d, w, e);
    trace := CutsLeadToStuck(s, tab, v);
  }

  /** A store with two valid pages, and what a format leaves of it that is cut after its first erase. */
  lemma CutFormat(tab: seq<HalfWord>, v: HalfWord, d: HalfWord) returns (s: Flash, t: Flash)
    requires v != ERASED
    ensures TwoLogs(s) && Formats(s) && FormatCut(s, t)
    ensures Recovered(s, tab) == map[] && Recovered(t, tab) == map[v := d]
  {
    var blank: Page := seq(PAGE_HALFWORDS, i => ERASED);
    FreshPageSpec(blank, VALID_PAGE);
    AppendSpec(blank[0 := VALID_PAGE], v, d);
    s := Flash(blank[0 := VALID_PAGE], AppendRecord(blank[0 := VALID_PAGE], v, d));
    t := Flash(blank, s.p1);
  }

  /** A store between operations has no transfer pending. */
  lemma NormalOutcome(s: Flash, tab: seq<HalfWord>)
    requires Normal(s)
    ensures Outcome(s, tab) == Recovered(s, tab) == Contents(Source(s))
  {
    hide Contents, PrefixUsed;
  }

  /** The number of failures in a list of outcomes. */
  ghost function Fails(faults: seq<bool>): nat {
    if faults == [] then 0 else (if faults[0] then 1 else 0) + Fails(faults[1..])
  }

  lemma {:induction false} NoFails(faults: seq<bool>)
    ensures Fails(faults) == 0 <==> true !in faults
  {
    if faults != [] {
      NoFails(faults[1..]);
    }
  }

  datatype Call = Write(v: HalfWord, d: HalfWord) | Recovery

  datatype Option = Nothing | Just(value: HalfWord)

  function Get(m: Map, u: HalfWord): Option {
    if u in m then Just(m[u]) else Nothing
  }

  /** After an interrupted write of (v, d): table variables keep their values, v may have either. */
  ghost predicate Survives(m: Map, t: Map, tab: seq<HalfWord>, v: HalfWord, d: HalfWord) {
    && (forall u :: u in tab && u != v ==> Get(t, u) == Get(m, u))
    && (v in tab ==> Get(t, v) in {Get(m, v), Just(d)})
  }

  lemma InterruptedSurvives(s: Flash, t: Flash, tab: seq<HalfWord>, v: HalfWord, d: HalfWord)
    requires Interrupted(s, t, tab, v, d) && ERASED !in tab
    ensures Consistent(t, tab) && !BothErased(t) && !BothValid(t) && Short(t)
    ensures Survives(Recovered(s, tab), Recovered(t, tab), tab, v, d)
  {
    OutcomeIsRecovered(t, tab);
  }

  lemma WrittenSurvives(s: Flash, tab: seq<HalfWord>, v: HalfWord, d: HalfWord)
    ensures var t := Written(s, tab, v, d);
      && Survives(Recovered(s, tab), t, tab, v, d)
      && forall u :: u in tab ==> Get(t, u) == if u == v then Just(d) else Get(Recovered(s, tab), u)
  {
    hide Recovered;
  }

  /** The map a run of writes is meant to build. */
  ghost function Ideal(m: Map, ops: seq<(HalfWord, HalfWord)>): Map {
    if ops == [] then m else Ideal(m, ops[..|ops| - 1])[ops[|ops| - 1].0 := ops[|ops| - 1].1]
  }

  /** The values a variable may have after a run of writes, some of which were interrupted. */
  ghost function Possible(m: Map, ops: seq<(HalfWord, HalfWord)>, completed: seq<bool>, u: HalfWord): set<Option>
    requires |ops| == |completed|
  {
    if ops == [] then {Get(m, u)}
    else
      var n := |ops| - 1;
      var earlier := Possible(m, ops[..n], completed[..n], u);
      if ops[n].0 != u then earlier
      else if completed[n] then {Just(ops[n].1)}
      else earlier + {Just(ops[n].1)}
  }

  lemma PossibleNone(m: Map, ops: seq<(HalfWord, HalfWord)>, tab: seq<HalfWord>)
    ensures forall u :: u in tab ==> Get(m, u) in Possible(m, ops[..0], [], u)
  {
  }

  lemma PossibleStep(m: Map, ops: seq<(HalfWord, HalfWord)>, completed: seq<bool>, op: (HalfWord, HalfWord),
                     done: bool, u: HalfWord)
    requires |ops| == |completed|
    ensures Possible(m, ops + [op], completed + [done], u) ==
      var earlier := Possible(m, ops, completed, u);
      if op.0 != u then earlier else if done then {Just(op.1)} else earlier + {Just(op.1)}
  {
    assert (ops + [op])[..|ops|] == ops && (completed + [done])[..|ops|] == completed;
  }

  /** A state from which recovery goes on, i cut recoveries after the state s. */
  ghost predicate Resumable(s: Flash, t: Flash, tab: seq<HalfWord>, i: nat) {
    && (Consistent(t, tab) || IsPending(t)) && !BothErased(t) && !BothValid(t)
    && Outcome(t, tab) == Outcome(s, tab)
    && (IsPending(t) && Short(s) ==> Used(Receiver(t)) <= 2 + NB_OF_VAR * (i + 1))
  }

  /** A pending transfer has not got far, as after an interrupted write. */
  ghost predicate Short(s: Flash) {
    IsPending(s) ==> Used(Receiver(s)) <= NB_OF_VAR + 2
  }

  /** No unknown header, and nothing that recovery would answer by formatting. */
  lemma ResumableIsSane(s: Flash, t: Flash, tab: seq<HalfWord>, i: nat)
    requires Resumable(s, t, tab, i)
    ensures Sane(t) && !Foreign(t) && !Formats(t)
  {
    hide Outcome;
  }

  /** One recovery, complete or cut, after i cut ones. */
  lemma RecoveryStep(s: Flash, r: Flash, t: Flash, tab: seq<HalfWord>, i: nat, st: Status)
    requires Resumable(s, r, tab, i) && ERASED !in tab
    requires st == FlashComplete ==> Normal(t)
    requires st == FlashComplete ==>
      Recovered(t, tab) == if IsPending(r) then Resumed(Source(r), Receiver(r), tab) else Recovered(r, tab)
    requires st != FlashComplete && IsPending(r) ==> Stopped(r, t, tab, NB_OF_VAR) || TwoLogs(t)
    requires st != FlashComplete && Consistent(r, tab) ==> InitFailed(r, t, tab)
    requires st == PageFull ==> IsPending(r) && PAGE_HALFWORDS / 2 - Used(Receiver(r)) < NB_OF_VAR
    ensures if BothValid(t) then Recovered(t, tab) == map[] else Outcome(t, tab) == Outcome(s, tab)
    ensures st != FlashComplete && !BothValid(t) ==> Resumable(s, t, tab, i + 1)
    ensures st == PageFull && Short(s) ==> i + 1 > 24
  {
    hide Contents, UsedFrom, PrefixUsed, Merged, Resumed, Transferring, Outcome;
    if st == FlashComplete {
      NormalOutcome(t, tab);
      OutcomeCases(r, tab);
    } else if !IsPending(r) {
      TransferIsPending(r, tab);
      OutcomeIsRecovered(r, tab);
      OutcomeIsRecovered(t, tab);
    }
  }

  lemma OutcomeCases(s: Flash, tab: seq<HalfWord>)
    ensures Outcome(s, tab) == if IsPending(s) then Resumed(Source(s), Receiver(s), tab) else Recovered(s, tab)
  {
  }

  class Store {
    const page0: array<HalfWord>
    const page1: array<HalfWord>
    /** The variables that page transfers carry over; 0xFFFF is prohibited. */
    const virtAddVarTab: seq<HalfWord>
    var dataVar: HalfWord
    /** Which of the next flash operations fail. Those beyond the end of the list succeed. */
    var faults: seq<bool>

    constructor (page0: array<HalfWord>, page1: array<HalfWord>, virtAddVarTab: seq<HalfWord>, faults: seq<bool>)
      ensures this.page0 == page0 && this.page1 == page1 && this.virtAddVarTab == virtAddVarTab
      ensures this.faults == faults
    {
      this.page0, this.page1, this.virtAddVarTab, this.faults := page0, page1, virtAddVarTab, faults;
      dataVar := 0;
    }

    ghost predicate Shape() {
      && page0 != page1 && page0.Length == PAGE_HALFWORDS && page1.Length == PAGE_HALFWORDS
      && |virtAddVarTab| == NB_OF_VAR && ERASED !in virtAddVarTab
    }

    ghost function State(): Flash
      requires Shape()
      reads page0, page1
    {
      Flash(page0[..], page1[..])
    }

    /** The key/value map the flash stands for. */
    ghost function Value(): Map
      requires Shape()
      reads page0, page1
    {
      Recovered(State(), virtAddVarTab)
    }

    // ----- flash primitives -----

    /** Whether the next flash operation fails. */
    method NextFails() returns (failed: bool)
      modifies this`faults
      ensures Fails(old(faults)) == Fails(faults) + if failed then 1 else 0
      ensures failed ==> true in old(faults)
    {
      failed := faults != [] && faults[0];
      if faults != [] {
        faults := faults[1..];
      }
    }

    method ProgramHalfWord(page: array<HalfWord>, i: nat, v: HalfWord) returns (s: Status)
      requires i < page.Length
      modifies page, this`faults
      ensures Fails(old(faults)) == Fails(faults) + if s == FlashError then 1 else 0
      ensures s in {FlashComplete, FlashError}
      ensures page[..] == if s == FlashComplete then old(page[..])[i := Programmed(old(page[i]), v)] else old(page[..])
    {
      var failed := NextFails();
      if failed {
        return FlashError;
      }
      page[i] := Programmed(page[i], v);
      return FlashComplete;
    }

    method EraseSectorIfNotEmpty(page: array<HalfWord>) returns (s: Status)
      requires page.Length == PAGE_HALFWORDS
      modifies page, this`faults
      ensures Fails(old(faults)) == Fails(faults) + if s == FlashError then 1 else 0
      ensures s in {FlashComplete, FlashError}
      ensures if s == FlashComplete then AllBlank(page[..]) else page[..] == old(page[..])
      ensures old(AllBlank(page[..])) ==> s == FlashComplete && faults == old(faults)
      ensures s == FlashComplete ==> forall i :: 0 <= i < 0x2000 ==> page[i] == 0xFFFF
    {
      var i := 0;
      while i < page.Length
        invariant i <= page.Length
        invariant forall k :: 0 <= k < i ==> page[k] == ERASED
        invariant faults == old(faults) && page[..] == old(page[..])
      {
        if page[i] != ERASED {
          var failed := NextFails();
          if failed {
            return FlashError;
          }
          forall k | 0 <= k < page.Length {
            page[k] := ERASED;
          }
          return FlashComplete;
        }
        i := i + 1;
      }
      return FlashComplete;
    }

    // ----- page selection, read, append -----

    method FindValidPage(op: Operation) returns (page: PageId)
      requires Shape()
      ensures op.WriteInValidPage? ==> page == WriteTarget(State())
      ensures op.ReadFromValidPage? ==>
        page == if NoneValid(State()) then None else if State().p0[0] == VALID_PAGE then Page0 else Page1
      ensures op.WriteInValidPage? ==>
        && (page == Page0 <==>
              (page1[0] == 0x0000 && page0[0] == 0xEEEE) || (page1[0] !in {0x0000, 0xEEEE} && page0[0] == 0x0000))
        && (page == None <==> page0[0] != 0x0000 && page1[0] != 0x0000)
      ensures op.ReadFromValidPage? ==>
        (page == Page0 <==> page0[0] == 0x0000) && (page == Page1 <==> page0[0] != 0x0000 && page1[0] == 0x0000)
    {
      var status0, status1 := page0[0], page1[0];
      match op
      case WriteInValidPage =>
        if status1 == VALID_PAGE {
          page := if status0 == RECEIVE_DATA then Page0 else Page1;
        } else if status0 == VALID_PAGE {
          page := if status1 == RECEIVE_DATA then Page1 else Page0;
        } else {
          page := None;
        }
      case ReadFromValidPage =>
        if status0 == VALID_PAGE {
          page := Page0;
        } else if status1 == VALID_PAGE {
          page := Page1;
        } else {
          page := None;
        }
    }

    /** Returns the newest record of `v` on the valid page; `dataIn` is what `*Data` held before. */
    method ReadVariable(v: HalfWord, dataIn: HalfWord) returns (found: bool, valid: bool, data: HalfWord)
      requires Shape() && v != ERASED
      ensures valid <==> !NoneValid(State())
      ensures found <==> valid && v in Contents(Source(State()))
      ensures data == if found then Contents(Source(State()))[v] else dataIn
    {
      data := dataIn;
      var id := FindValidPage(ReadFromValidPage);
      if id.None? {
        return false, false, data;
      }
      var page := if id.Page0? then page0 else page1;
      ghost var p: Page := page[..];
      assert p == Source(State());
      var address := PAGE_HALFWORDS - 1;
      ghost var k := Slots(p) - 1;
      while address > 1
        invariant 0 <= k < Slots(p) && address == 2 * k + 1
        invariant forall j :: k < j < Slots(p) ==> p[2 * j + 1] != v
      {
        if page[address] == v {
          data := page[address - 1];
          ReplayOther(p, k + 1, Slots(p), v);
          assert p[2 * k + 1] == v && p[2 * k] == data;
          return true, true, data;
        }
        address := address - 2;
        k := k - 1;
      }
      ReplayOther(p, 1, Slots(p), v);
      return false, true, data;
    }

    method VerifyPageFullWriteVariable(v: HalfWord, d: HalfWord) returns (s: Status)
      requires Shape() && v != ERASED
      modifies page0, page1, this`faults
      ensures Fails(old(faults)) == Fails(faults) + if s == FlashError then 1 else 0
      ensures Appended(old(State()), State(), v, d, s)
    {
      var id := FindValidPage(WriteInValidPage);
      if id.None? {
        return NoValidPage;
      }
      var page := if id.Page0? then page0 else page1;
      ghost var p: Page := page[..];
      var address := 0;
      ghost var k := 0;
      while address < PAGE_HALFWORDS - 1
        invariant 0 <= k <= Slots(p) && address == 2 * k
        invariant page[..] == p && State() == old(State()) && faults == old(faults)
        invariant forall j :: 0 <= j < k ==> !BlankSlot(p, j)
      {
        if page[address] == ERASED && page[address + 1] == ERASED {
          UsedIs(p, 0, k);
          ProgramSpec(d);
          ProgramSpec(v);
          s := ProgramHalfWord(page, address, d);
          if s != FlashComplete {
            return;
          }
          s := ProgramHalfWord(page, address + 1, v);
          return;
        }
        address := address + 2;
        k := k + 1;
      }
      UsedIs(p, 0, k);
      return PageFull;
    }

    // ----- page transfer -----

    /** Copies the newest value of one variable from the valid page, if there is one. */
    method TransferVariable(u: HalfWord) returns (s: Status)
      requires Shape() && !NoneValid(State()) && u != ERASED
      modifies page0, page1, this`dataVar, this`faults
      ensures Fails(old(faults)) == Fails(faults) + if s == FlashError then 1 else 0
      ensures CopyOutcome(old(State()), State(), u, s)
    {
      hide Contents;
      var found, valid, data := ReadVariable(u, dataVar);
      dataVar := data;
      if !found {
        return FlashComplete;
      }
      s := VerifyPageFullWriteVariable(u, data);
    }

    /** The transfer loop of EE_PageTransfer: every table variable except the one just written. */
    method CopyAllBut(v: HalfWord) returns (s: Status)
      requires Shape() && InTransfer(State(), virtAddVarTab)
      requires Receiver(State())[3] == v != ERASED && Used(Receiver(State())) <= 2
      modifies page0, page1, this`dataVar, this`faults
      ensures Fails(old(faults)) == Fails(faults) + if s == FlashError then 1 else 0
      ensures Stopped(old(State()), State(), virtAddVarTab, NB_OF_VAR)
      ensures s == FlashComplete ==> Contents(Receiver(State())) == Value()
      ensures s in {FlashComplete, FlashError}
    {
      hide Contents, Resumed, Merged, UsedFrom, PrefixUsed, CopyOutcome, Recovered, BlankSlot;
      ghost var start := State();
      ProgressStart(start, virtAddVarTab);
      var varIdx := 0;
      while varIdx < NB_OF_VAR
        invariant varIdx <= NB_OF_VAR && Progress(start, State(), virtAddVarTab, varIdx)
        invariant Fails(faults) == Fails(old(faults))
      {
        ghost var before := State();
        if virtAddVarTab[varIdx] != v {
          s := TransferVariable(virtAddVarTab[varIdx]);
          CopyStep(start, before, State(), virtAddVarTab, varIdx, s);
          if s != FlashComplete {
            return;
          }
        } else {
          SkipStep(start, before, virtAddVarTab, varIdx);
        }
        varIdx := varIdx + 1;
      }
      ProgressDone(start, State(), virtAddVarTab);
      return FlashComplete;
    }

    /** The end of EE_PageTransfer: erase the old page, then mark the new one valid. */
    method SwitchPages() returns (s: Status)
      requires Shape() && InTransfer(State(), virtAddVarTab) && Contents(Receiver(State())) == Value()
      modifies page0, page1, this`faults
      ensures Fails(old(faults)) == Fails(faults) + if s == FlashError then 1 else 0
      ensures Value() == old(Value())
      ensures s == FlashComplete ==> Normal(State())
      ensures s != FlashComplete ==> s == FlashError && Consistent(State(), virtAddVarTab)
      ensures s != FlashComplete ==> State() == old(State()) || (NoneValid(State()) && !BothErased(State()))
    {
      ghost var done := State();
      var fromPage0 := page0[0] == VALID_PAGE;
      var oldPage, newPage := if fromPage0 then page0 else page1, if fromPage0 then page1 else page0;
      ProgramSpec(VALID_PAGE);
      s := EraseSectorIfNotEmpty(oldPage);
      if s != FlashComplete {
        return;
      }
      ghost var t := State();
      ghost var q: Page := newPage[..][0 := VALID_PAGE];
      TransferFinish(done, t, if fromPage0 then t.(p1 := q) else t.(p0 := q), virtAddVarTab);
      s := ProgramHalfWord(newPage, 0, VALID_PAGE);
    }

    /** EE_PageTransfer from the marked page on. A page that is full already takes nothing. */
    method FillNewPage(v: HalfWord, d: HalfWord, ghost start: Flash) returns (s: Status)
      requires Shape() && v != ERASED
      requires if Normal(start)
        then InTransfer(State(), virtAddVarTab) && Used(Receiver(State())) == 1
          && Value() == Restrict(Recovered(start, virtAddVarTab), virtAddVarTab)
        else Split(State()) && Used(Target(State())) == PAGE_HALFWORDS / 2
      modifies page0, page1, this`dataVar, this`faults
      ensures Fails(old(faults)) == Fails(faults) + if s == FlashError then 1 else 0
      ensures !Normal(start) ==> s == PageFull && State() == old(State())
      ensures Normal(start) && s == FlashComplete ==> Normal(State()) && Value() == old(Value())[v := d]
      ensures Normal(start) && s != FlashComplete ==>
        s == FlashError && Interrupted(start, State(), virtAddVarTab, v, d)
    {
      ghost var marked := State();
      s := VerifyPageFullWriteVariable(v, d);
      if Normal(start) {
        TransferStep(marked, State(), virtAddVarTab, v, d, s);
      }
      if s != FlashComplete {
        return;
      }
      s := CopyAllBut(v);
      if s != FlashComplete {
        return;
      }
      s := SwitchPages();
    }

    method PageTransfer(v: HalfWord, d: HalfWord) returns (s: Status)
      requires Shape() && v != ERASED
      requires Normal(State()) || (Split(State()) && Used(Target(State())) == PAGE_HALFWORDS / 2)
      modifies page0, page1, this`dataVar, this`faults
      ensures Fails(old(faults)) == Fails(faults) + if s == FlashError then 1 else 0
      ensures old(!Normal(State())) ==> s in {PageFull, FlashError} && State() == old(State())
      ensures old(Normal(State())) && s == FlashComplete ==>
        Normal(State()) && Value() == Restrict(old(Value()), virtAddVarTab)[v := d]
      ensures old(Normal(State())) && s != FlashComplete ==>
        s == FlashError && Interrupted(old(State()), State(), virtAddVarTab, v, d)
    {
      hide Contents, UsedFrom, Programmed, Merged;
      ghost var start := State();
      if !Normal(start) {
        RemarkSplit(start);
      }
      var id := FindValidPage(ReadFromValidPage);
      var newPage := if id.Page1? then page0 else page1;
      ProgramSpec(RECEIVE_DATA);
      s := ProgramHalfWord(newPage, 0, RECEIVE_DATA);
      if s != FlashComplete {
        return;
      }
      if Normal(start) {
        TransferStart(start, State(), virtAddVarTab);
      }
      s := FillNewPage(v, d, start);
    }

    /** Stores `d` under `v`, on the active page if it has room, else through a page transfer. */
    method WriteVariable(v: HalfWord, d: HalfWord) returns (s: Status)
      requires Shape() && v != ERASED
      requires Normal(State()) || NoneValid(State()) || Split(State())
      modifies page0, page1, this`dataVar, this`faults
      ensures Fails(old(faults)) == Fails(faults) + if s == FlashError then 1 else 0
      ensures old(NoneValid(State())) ==> s == NoValidPage && State() == old(State())
      ensures old(Normal(State())) && s == FlashComplete ==>
        Normal(State()) && Value() == Written(old(State()), virtAddVarTab, v, d)
      ensures old(Normal(State())) && s != FlashComplete ==>
        s == FlashError && Interrupted(old(State()), State(), virtAddVarTab, v, d)
      ensures old(Split(State())) ==> Source(State()) == old(Source(State())) && !NoneValid(State())
      ensures old(Split(State())) ==>
        || Appended(old(State()), State(), v, d, s)
        || (old(Used(Target(State()))) == PAGE_HALFWORDS / 2 && s in {PageFull, FlashError} && State() == old(State()))
      ensures old(IsPending(State())) ==> IsPending(State())
      ensures old(IsPending(State())) ==>
        Outcome(State(), virtAddVarTab) ==
        (if s == FlashComplete && !old(Lost(State(), virtAddVarTab, v))
         then old(Outcome(State(), virtAddVarTab))[v := d] else old(Outcome(State(), virtAddVarTab)))
      ensures old(Stuck(State(), virtAddVarTab)) ==> s in {PageFull, FlashError} && State() == old(State())
      ensures old(Normal(State())) && true !in old(faults) ==> s == FlashComplete
    {
      NoFails(faults);
      ghost var before := State();
      hide Contents, UsedFrom, PrefixUsed, Merged, BlankSlot, Outcome, Lost, Recovered, Written, Interrupted, Stuck;
      TransferIsPending(before, virtAddVarTab);
      s := VerifyPageFullWriteVariable(v, d);
      if Normal(before) {
        NormalWrite(before, State(), virtAddVarTab, v, d, s);
      }
      if IsPending(before) {
        PendingWrite(before, State(), virtAddVarTab, v, d, s);
        if Stuck(before, virtAddVarTab) {
          StuckStep(before, State(), virtAddVarTab, v, d, s);
        }
      }
      if s == PageFull {
        s := PageTransfer(v, d);
      }
    }

    /**
     A completed write is read back exactly when the store was between operations, which its two
     page headers tell, or held the value already: while a transfer waits for EE_Init, or with two
     valid pages, the record goes to a page that reads do not look at.
     */
    method WriteThenRead(v: HalfWord, d: HalfWord) returns (s: Status, found: bool, data: HalfWord)
      requires Shape() && v != ERASED
      requires Normal(State()) || NoneValid(State()) || Split(State())
      modifies page0, page1, this`dataVar, this`faults
      ensures s == FlashComplete ==>
        ((found && data == d) <==> old(Normal(State())) || old(Get(Contents(Source(State())), v)) == Just(d))
    {
      s := WriteVariable(v, d);
      var valid;
      found, valid, data := ReadVariable(v, 0);
    }

    // ----- initialisation and recovery -----

    /** The copying loop of EE_Init: skips the variable whose record came first on the receiving page. */
    method ResumeCopy() returns (s: Status)
      requires Shape() && (IsPending(State()) || Foreign(State()))
      modifies page0, page1, this`dataVar, this`faults
      ensures Fails(old(faults)) == Fails(faults) + if s == FlashError then 1 else 0
      ensures s in {FlashComplete, FlashError, PageFull}
      ensures old(IsPending(State())) ==>
        if s == FlashComplete then Progress(old(State()), State(), virtAddVarTab, NB_OF_VAR)
        else Stopped(old(State()), State(), virtAddVarTab, NB_OF_VAR)
      ensures old(IsPending(State())) && s == PageFull ==>
        PAGE_HALFWORDS / 2 - old(Used(Receiver(State()))) < NB_OF_VAR && Stuck(State(), virtAddVarTab)
      ensures old(Stuck(State(), virtAddVarTab)) ==> s == PageFull && State() == old(State())
      ensures old(Foreign(State())) ==>
        Foreign(State()) && State().p1 == old(State().p1) && Contents(State().p0) == old(Contents(State().p0))
      ensures s == FlashComplete ==> old(HasRoom(State(), virtAddVarTab))
      ensures s == PageFull ==> !old(HasRoom(State(), virtAddVarTab))
    {
      hide Contents, Resumed, Merged, UsedFrom, PrefixUsed, CopyOutcome, Recovered, BlankSlot, Transferring, Outcome;
      hide Counted, HasRoom;
      ghost var start := State();
      if IsPending(start) {
        ProgressStart(start, virtAddVarTab);
      }
      CountStart(start, virtAddVarTab);
      var receiver := if page0[0] == VALID_PAGE then page1 else page0;
      var x := -1;
      var varIdx := 0;
      while varIdx < NB_OF_VAR
        invariant x < varIdx <= NB_OF_VAR && Fails(faults) == Fails(old(faults))
        invariant Counted(start, State(), virtAddVarTab, varIdx)
        invariant IsPending(start) ==> Progress(start, State(), virtAddVarTab, varIdx)
        invariant Stuck(start, virtAddVarTab) ==> State() == start && NothingToCopy(start, virtAddVarTab, varIdx)
        invariant Foreign(start) ==>
          Foreign(State()) && State().p1 == start.p1 && Contents(State().p0) == Contents(start.p0)
      {
        ghost var before := State();
        if receiver[3] == virtAddVarTab[varIdx] {
          x := varIdx;
        }
        if varIdx != x {
          s := TransferVariable(virtAddVarTab[varIdx]);
          if IsPending(start) {
            CopyStep(start, before, State(), virtAddVarTab, varIdx, s);
            if Stuck(start, virtAddVarTab) {
              StuckCopy(start, State(), virtAddVarTab, varIdx, s);
            }
          } else {
            ForeignStep(before, State(), virtAddVarTab[varIdx], s);
          }
          CountCopy(start, before, State(), virtAddVarTab, varIdx, s);
          if s != FlashComplete {
            return;
          }
        } else {
          if IsPending(start) {
            SkipStep(start, before, virtAddVarTab, varIdx);
          }
          CountSkip(start, before, virtAddVarTab, varIdx);
        }
        varIdx := varIdx + 1;
      }
      CountDone(start, State(), virtAddVarTab);
      return FlashComplete;
    }

    /** The branch of EE_Init for one valid and one receiving page, also taken for an unknown header on page 1. */
    method ResumeTransfer() returns (s: Status)
      requires Shape() && (IsPending(State()) || Foreign(State()))
      modifies page0, page1, this`dataVar, this`faults
      ensures Fails(old(faults)) == Fails(faults) + if s == FlashError then 1 else 0
      ensures s != NoValidPage
      ensures s == FlashComplete && old(IsPending(State())) ==>
        Normal(State()) && Value() == Resumed(old(Source(State())), old(Receiver(State())), virtAddVarTab)
      ensures s == FlashComplete && old(InTransfer(State(), virtAddVarTab)) ==> Value() == old(Value())
      ensures s != FlashComplete && old(InTransfer(State(), virtAddVarTab)) ==>
        InitFailed(old(State()), State(), virtAddVarTab)
      ensures s != FlashComplete && old(IsPending(State())) ==>
        Stopped(old(State()), State(), virtAddVarTab, NB_OF_VAR) || TwoLogs(State())
      ensures s == PageFull && old(IsPending(State())) ==>
        PAGE_HALFWORDS / 2 - old(Used(Receiver(State()))) < NB_OF_VAR && Stuck(State(), virtAddVarTab)
      ensures old(Stuck(State(), virtAddVarTab)) ==> s == PageFull && State() == old(State())
      ensures old(Foreign(State())) ==> ForeignOutcome(old(State()), State(), s)
      ensures s == FlashComplete ==> old(HasRoom(State(), virtAddVarTab))
      ensures s == PageFull ==> !old(HasRoom(State(), virtAddVarTab))
    {
      hide HasRoom, Contents, Resumed, Merged, UsedFrom, BlankSlot, Transferring, PrefixUsed, InitFailed, Recovered;
      hide Outcome, Stuck;
      ghost var start := State();
      TransferIsPending(start, virtAddVarTab);
      var fromPage0 := page0[0] == VALID_PAGE;
      var source, receiver := if fromPage0 then page0 else page1, if fromPage0 then page1 else page0;
      s := ResumeCopy();
      ghost var done := State();
      if InTransfer(start, virtAddVarTab) {
        StoppedFails(start, done, virtAddVarTab);
      }
      if s != FlashComplete {
        return;
      }
      MarkSpec(receiver[0]);
      s := ProgramHalfWord(receiver, 0, VALID_PAGE);
      if s != FlashComplete {
        return;
      }
      ghost var t := State();
      if IsPending(start) {
        MarkedTwice(done, t);
      }
      if InTransfer(start, virtAddVarTab) {
        WindowFails(start, done, t, virtAddVarTab);
      }
      s := EraseSectorIfNotEmpty(source);
      if s == FlashComplete && IsPending(start) {
        ProgressDone(start, done, virtAddVarTab);
        ResumeFinish(done, t, State(), virtAddVarTab);
      }
    }

    /** Cut short, a format leaves page 1 as it was, and page 0 as it was, blank, or blank but for its mark. */
    method Format() returns (s: Status)
      requires Shape()
      modifies page0, page1, this`faults
      ensures Fails(old(faults)) == Fails(faults) + if s == FlashError then 1 else 0
      ensures s == FlashComplete ==> Normal(State()) && Value() == map[]
      ensures s == FlashComplete ==>
        page0[0] == 0x0000 && (forall i :: 1 <= i < 0x2000 ==> page0[i] == 0xFFFF)
        && forall i :: 0 <= i < 0x2000 ==> page1[i] == 0xFFFF
      ensures s != FlashComplete ==> s == FlashError && FormatCut(old(State()), State())
    {
      ProgramSpec(VALID_PAGE);
      s := EraseSectorIfNotEmpty(page0);
      if s != FlashComplete {
        return;
      }
      FreshPageSpec(page0[..], VALID_PAGE);
      s := ProgramHalfWord(page0, 0, VALID_PAGE);
      if s != FlashComplete {
        return;
      }
      s := EraseSectorIfNotEmpty(page1);
    }

    /** The branches of EE_Init for one marked page: the other is erased, and a received page marked valid. */
    method FinishPage(page: array<HalfWord>, other: array<HalfWord>) returns (s: Status)
      requires Shape() && ((page == page0 && other == page1) || (page == page1 && other == page0))
      requires page[0] in {VALID_PAGE, RECEIVE_DATA} && PrefixUsed(page[..]) && other[0] == ERASED
      modifies page0, page1, this`faults
      ensures Fails(old(faults)) == Fails(faults) + if s == FlashError then 1 else 0
      ensures s in {FlashComplete, FlashError} && Value() == old(Value())
      ensures s == FlashComplete ==> Normal(State())
      ensures Consistent(State(), virtAddVarTab)
      ensures !BothValid(State()) && !BothErased(State()) && !IsPending(State())
    {
      hide Contents, UsedFrom, Transferring;
      s := EraseSectorIfNotEmpty(other);
      if s != FlashComplete {
        return;
      }
      MarkValid(page[..], other[..], virtAddVarTab);
      if page[0] == RECEIVE_DATA {
        ProgramSpec(VALID_PAGE);
        s := ProgramHalfWord(page, 0, VALID_PAGE);
      }
    }

    /** Repairs the pages after a power loss, whatever their headers. */
    method Init() returns (s: Status)
      requires Shape() && Sane(State())
      modifies page0, page1, this`dataVar, this`faults
      ensures Fails(old(faults)) == Fails(faults) + if s == FlashError then 1 else 0
      ensures s in {FlashComplete, FlashError, PageFull}
      ensures s == FlashComplete && !old(Foreign(State())) ==> Normal(State())
      ensures s == FlashComplete && !old(Foreign(State())) ==>
        Value() == (if old(IsPending(State())) then Resumed(old(Source(State())), old(Receiver(State())), virtAddVarTab)
                    else old(Value()))
      ensures s == FlashComplete && old(InTransfer(State(), virtAddVarTab)) ==> Value() == old(Value())
      ensures old(Foreign(State())) ==> ForeignOutcome(old(State()), State(), s)
      ensures s != FlashComplete && old(Formats(State())) ==>
        FormatCut(old(State()), State()) && Value() == CutValue(old(State()), State())
      ensures old(Consistent(State(), virtAddVarTab)) ==> Consistent(State(), virtAddVarTab)
      ensures s != FlashComplete && old(Consistent(State(), virtAddVarTab)) && !old(Formats(State())) ==>
        InitFailed(old(State()), State(), virtAddVarTab)
      ensures s != FlashComplete && old(IsPending(State())) ==>
        Stopped(old(State()), State(), virtAddVarTab, NB_OF_VAR) || TwoLogs(State())
      ensures s == PageFull && !old(Foreign(State())) ==>
        old(IsPending(State())) && PAGE_HALFWORDS / 2 - old(Used(Receiver(State()))) < NB_OF_VAR
        && Stuck(State(), virtAddVarTab)
      ensures old(Stuck(State(), virtAddVarTab)) ==> s == PageFull && State() == old(State())
      ensures true !in old(faults) ==>
        s == if old(IsPending(State()) || Foreign(State())) && !old(HasRoom(State(), virtAddVarTab)) then PageFull
             else FlashComplete
    {
      NoFails(faults);
      hide HasRoom, Stuck, Stopped, Outcome, Contents, UsedFrom, BlankSlot, Recovered, Transferring;
      hide FormatCut, CutValue, Resumed, ForeignOutcome, PrefixUsed, TwoLogs;
      ghost var start := State();
      TransferIsPending(start, virtAddVarTab);
      var status0, status1 := page0[0], page1[0];
      if status0 == ERASED {
        if status1 == VALID_PAGE {
          s := FinishPage(page1, page0);
        } else if status1 == RECEIVE_DATA {
          s := FinishPage(page1, page0);
        } else {
          s := Format();
        }
      } else if status0 == RECEIVE_DATA {
        if status1 == VALID_PAGE {
          s := ResumeTransfer();
        } else if status1 == ERASED {
          s := FinishPage(page0, page1);
        } else {
          s := Format();
        }
      } else if status0 == VALID_PAGE {
        if status1 == VALID_PAGE {
          s := Format();
        } else if status1 == ERASED {
          s := FinishPage(page0, page1);
        } else {
          s := ResumeTransfer();
        }
      } else {
        s := Format();
      }
      TransferIsPending(State(), virtAddVarTab);
      if Formats(start) {
        FormatsEmpty(start, virtAddVarTab);
        if s != FlashComplete {
          FormatCutSpec(start, State(), virtAddVarTab);
        }
      }
    }

    /**
     A write accepted while a transfer waits for EE_Init, then recoveries, each of which may be cut, and then a
     read. The write is lost exactly when the recovery copies an older value over it: the variable is in the
     table, has another value on the valid page, and is not the one whose record comes first on the
     receiving page.
     */
    method WriteDuringTransfer(v: HalfWord, d: HalfWord, attempts: nat)
      returns (s: Status, window: bool, found: bool, data: HalfWord)
      requires Shape() && IsPending(State()) && v != ERASED
      modifies page0, page1, this`dataVar, this`faults
      ensures s == FlashComplete ==> Normal(State()) && found
      ensures s == FlashComplete ==>
        (data == d <==> !Overwritten(old(State()), virtAddVarTab, v, d))
      ensures s == FlashComplete && data != d ==> data == old(Contents(Source(State())))[v]
      ensures s == PageFull ==> Stuck(State(), virtAddVarTab) || State() == old(State())
      ensures window ==> BothValid(State())
    {
      ghost var start := State();
      hide Contents, UsedFrom, PrefixUsed, Merged, BlankSlot, Appended, Resumed, Overwritten, Outcome, Stuck, Lost;
      hide IsPending, Recovered, InitFailed, FormatCut, CutValue, Written, Interrupted, InTransfer, ForeignOutcome;
      found, data, window := false, 0, false;
      TransferIsPending(start, virtAddVarTab);
      s := WriteVariable(v, d);
      if s != FlashComplete {
        return;
      }
      WriteLost(start, State(), virtAddVarTab, v, d);
      TransferIsPending(State(), virtAddVarTab);
      s, window := Recover(attempts);
      if s != FlashComplete {
        return;
      }
      NormalOutcome(State(), virtAddVarTab);
      var valid;
      found, valid, data := ReadVariable(v, 0);
    }

    /**
     Once a pending transfer is stuck, no sequence of writes and recoveries gets it out of there: every recovery
     reports a full page, no write completes, and nothing changes.
     */
    method RetryStuck(calls: seq<Call>) returns (results: seq<Status>)
      requires Shape() && Stuck(State(), virtAddVarTab) && forall c <- calls :: c.Write? ==> c.v != ERASED
      modifies page0, page1, this`dataVar, this`faults
      ensures State() == old(State()) && |results| == |calls|
      ensures forall i :: 0 <= i < |calls| ==> results[i] == PageFull || (calls[i].Write? && results[i] == FlashError)
    {
      hide Contents, UsedFrom, PrefixUsed, Merged, BlankSlot, Appended, Resumed, Outcome, Stuck, IsPending, Recovered;
      hide InTransfer, Stopped, InitFailed, ForeignOutcome, Lost, Consistent;
      results := [];
      var i := 0;
      while i < |calls|
        invariant i <= |calls| && |results| == i && State() == old(State())
        invariant forall k :: 0 <= k < i ==> results[k] == PageFull || (calls[k].Write? && results[k] == FlashError)
      {
        TransferIsPending(State(), virtAddVarTab);
        assert calls[i] in calls;
        var s;
        match calls[i] {
          case Write(v, d) => s := WriteVariable(v, d);
          case Recovery => s := Init();
        }
        results := results + [s];
        i := i + 1;
      }
    }

    // ----- whole runs -----

    /**
     Without faults the store is a map: after any run of completed writes, over any number of page
     transfers, each table variable has the last value written.
     */
    method WriteAll(ops: seq<(HalfWord, HalfWord)>) returns (s: Status)
      requires Shape() && Normal(State()) && forall i :: 0 <= i < |ops| ==> ops[i].0 != ERASED
      modifies page0, page1, this`dataVar, this`faults
      ensures s in {FlashComplete, FlashError} && (true !in old(faults) ==> s == FlashComplete)
      ensures s == FlashComplete ==> Normal(State())
      ensures s == FlashComplete ==>
        forall u :: u in virtAddVarTab ==> Get(Value(), u) == Get(Ideal(old(Value()), ops), u)
    {
      NoFails(faults);
      var i := 0;
      while i < |ops|
        invariant i <= |ops| && Normal(State()) && Fails(faults) == Fails(old(faults))
        invariant forall u :: u in virtAddVarTab ==> Get(Value(), u) == Get(Ideal(old(Value()), ops[..i]), u)
      {
        assert ops[..i + 1][..i] == ops[..i];
        s := WriteVariable(ops[i].0, ops[i].1);
        if s != FlashComplete {
          return;
        }
        i := i + 1;
      }
      assert ops[..|ops|] == ops;
      return FlashComplete;
    }

    /**
     Recoveries, each of which may be cut anywhere, until one completes. The outcome stays what it was at the
     start, and that is the value, unless one was cut between marking the receiver and erasing the source
     (`window`). With at most 24 recoveries after a write the receiving page never fills up; if it does, the
     store is stuck.
     */
    method Recover(attempts: nat) returns (s: Status, window: bool)
      requires Shape() && (Consistent(State(), virtAddVarTab) || IsPending(State()))
      requires !BothErased(State()) && !BothValid(State())
      modifies page0, page1, this`dataVar, this`faults
      ensures s in {FlashComplete, FlashError, PageFull} && Fails(faults) <= Fails(old(faults))
      ensures s == FlashError && !window ==> Fails(old(faults)) >= attempts
      ensures s == PageFull ==> Stuck(State(), virtAddVarTab)
      ensures s == PageFull && old(Short(State())) ==> attempts > 24
      ensures window <==> BothValid(State())
      ensures window ==> Value() == map[]
      ensures !window ==> Outcome(State(), virtAddVarTab) == old(Outcome(State(), virtAddVarTab))
      ensures !window && old(Consistent(State(), virtAddVarTab)) ==> Value() == old(Value())
      ensures s == FlashComplete ==> Normal(State())
    {
      hide Contents, UsedFrom, PrefixUsed, Merged, BlankSlot, Resumed, Outcome, Stuck, Recovered, ForeignOutcome;
      hide Transferring;
      ghost var start := State();
      s, window := FlashError, false;
      var i := 0;
      while s != FlashComplete && i < attempts && !window
        invariant i <= attempts && s in {FlashComplete, FlashError, PageFull}
        invariant Fails(faults) <= Fails(old(faults)) && (s == FlashError ==> Fails(faults) + i <= Fails(old(faults)))
        invariant s == PageFull ==> Stuck(State(), virtAddVarTab)
        invariant s == PageFull && Short(start) ==> i > 24
        invariant s == FlashComplete ==> Normal(State())
        invariant window <==> BothValid(State())
        invariant window ==> Value() == map[]
        invariant !window ==> Outcome(State(), virtAddVarTab) == Outcome(start, virtAddVarTab)
        invariant s != FlashComplete && !window ==> Resumable(start, State(), virtAddVarTab, i)
        invariant Consistent(start, virtAddVarTab) ==> Consistent(State(), virtAddVarTab)
      {
        ghost var before := State();
        TransferIsPending(before, virtAddVarTab);
        ResumableIsSane(start, before, virtAddVarTab, i);
        s := Init();
        RecoveryStep(start, before, State(), virtAddVarTab, i, s);
        window := page0[0] == VALID_PAGE && page1[0] == VALID_PAGE;
        i := i + 1;
      }
      if Consistent(start, virtAddVarTab) {
        OutcomeIsRecovered(start, virtAddVarTab);
        OutcomeIsRecovered(State(), virtAddVarTab);
      }
    }

    /** Power is lost at any point of one write and again at any points of any number of recoveries. */
    method WriteAndRecover(v: HalfWord, d: HalfWord, attempts: nat, u: HalfWord)
      returns (s: Status, window: bool, found: bool, data: HalfWord)
      requires Shape() && Normal(State()) && v != ERASED
      requires u in virtAddVarTab
      modifies page0, page1, this`dataVar, this`faults
      ensures s in {FlashComplete, FlashError, PageFull} && (s == PageFull ==> attempts > 24)
      ensures Fails(old(faults)) <= attempts <= 24 && !window ==> s == FlashComplete
      ensures window <==> BothValid(State())
      ensures !window ==> Survives(old(Value()), Value(), virtAddVarTab, v, d)
      ensures window ==> Value() == map[]
      ensures s == FlashComplete ==> Normal(State())
      ensures s == FlashComplete ==>
        (if found then Just(data) else Nothing) in
        {Get(old(Value()), u), if u == v then Just(d) else Get(old(Value()), u)}
    {
      hide Interrupted, Written, Recovered, Consistent, Contents, Outcome, UsedFrom, PrefixUsed, Appended, Stuck;
      window := false;
      ghost var start := State();
      WrittenSurvives(start, virtAddVarTab, v, d);
      TransferIsPending(start, virtAddVarTab);
      s := WriteVariable(v, d);
      if s != FlashComplete {
        InterruptedSurvives(start, State(), virtAddVarTab, v, d);
        s, window := Recover(attempts);
      }
      if s == FlashComplete {
        NormalOutcome(State(), virtAddVarTab);
      }
      found, data := false, 0;
      if s == FlashComplete {
        var valid;
        found, valid, data := ReadVariable(u, 0);
      }
    }

    /**
     Any run of writes, each of which may be cut anywhere and is then followed by recoveries that may be cut
     anywhere: outside the window, every table variable holds the value of its last completed write or of an
     interrupted one after it.
     */
    method WriteRun(ops: seq<(HalfWord, HalfWord)>, attempts: nat)
      returns (s: Status, window: bool, completed: seq<bool>)
      requires Shape() && Normal(State()) && forall i :: 0 <= i < |ops| ==> ops[i].0 != ERASED
      modifies page0, page1, this`dataVar, this`faults
      ensures |completed| <= |ops| && (s == FlashComplete ==> Normal(State()) && |completed| == |ops|)
      ensures Fails(old(faults)) <= attempts <= 24 && !window ==> s == FlashComplete
      ensures window <==> BothValid(State())
      ensures !window ==> forall u :: u in virtAddVarTab ==>
        Get(Value(), u) in Possible(old(Value()), ops[..|completed|], completed, u)
    {
      hide Interrupted, Written, Recovered, Consistent, Contents, Outcome, UsedFrom, PrefixUsed, Appended, Stuck;
      hide Possible;
      s, window, completed := FlashComplete, false, [];
      PossibleNone(Value(), ops, virtAddVarTab);
      ghost var m := Value();
      while |completed| < |ops|
        invariant |completed| <= |ops| && s == FlashComplete && !window && Normal(State())
        invariant Fails(faults) <= Fails(old(faults))
        invariant forall u :: u in virtAddVarTab ==> Get(Value(), u) in Possible(m, ops[..|completed|], completed, u)
        decreases |ops| - |completed|
      {
        var (v, d) := ops[|completed|];
        ghost var before, was := State(), completed;
        WrittenSurvives(before, virtAddVarTab, v, d);
        TransferIsPending(before, virtAddVarTab);
        s := WriteVariable(v, d);
        completed := completed + [s == FlashComplete];
        if s != FlashComplete {
          InterruptedSurvives(before, State(), virtAddVarTab, v, d);
          s, window := Recover(attempts);
        }
        assert ops[..|completed|] == ops[..|was|] + [(v, d)];
        forall u | u in virtAddVarTab && !window
          ensures Get(Value(), u) in Possible(m, ops[..|completed|], completed, u)
        {
          PossibleStep(m, ops[..|was|], was, (v, d), completed[|was|], u);
        }
        if s != FlashComplete {
          return;
        }
      }
    }
  }
}
