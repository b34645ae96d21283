/**
 The on-flash record format of eeprom.c, on values: a page is a log of (data, virtual address)
 records behind a header word. `Contents` replays the log from the oldest record to the newest;
 it is the independent meaning against which the scanning and transferring code is proved.
 */
module EepromLog {
  import opened Bits

  type HalfWord = h: int | 0 <= h < 0x10000

  /** Half-words in one page: PAGE_SIZE is 0x4000 bytes. */
  const PAGE_HALFWORDS: nat := 0x2000
  const ERASED: HalfWord := 0xFFFF
  const RECEIVE_DATA: HalfWord := 0xEEEE
  const VALID_PAGE: HalfWord := 0x0000
  const NB_OF_VAR: nat := 160

  /** Flash programming can only clear bits. */
  function Programmed(old_: HalfWord, v: HalfWord): HalfWord {
    AndBits(old_, v, 16)
  }

  /** Programming an erased half-word stores the value; programming 0 always stores 0. */
  lemma ProgramSpec(v: HalfWord)
    ensures Programmed(ERASED, v) == v
    ensures Programmed(RECEIVE_DATA, VALID_PAGE) == VALID_PAGE
  {
    assert Ones(4) == 0xF && Ones(8) == 0xFF && Ones(12) == 0xFFF && Ones(16) == ERASED;
    AndOnes(v, 16);
  }

  /** Marking a page as receiving again changes nothing on a page that is receiving or valid. */
  lemma RemarkSpec()
    ensures Programmed(RECEIVE_DATA, RECEIVE_DATA) == RECEIVE_DATA
    ensures Programmed(VALID_PAGE, RECEIVE_DATA) == VALID_PAGE
  {
    assert Ones(4) == 0xF && Ones(8) == 0xFF && Ones(12) == 0xFFF && Ones(16) == ERASED;
    hide AndBits;
    AndSelf(RECEIVE_DATA, 16);
    ZeroAnd(RECEIVE_DATA, 16);
  }

  /** Programming the valid mark works on any header. */
  lemma MarkSpec(h: HalfWord)
    ensures Programmed(h, VALID_PAGE) == VALID_PAGE
  {
    AndZero(h, 16);
  }

  type Page = p: seq<HalfWord> | |p| == PAGE_HALFWORDS witness seq(PAGE_HALFWORDS, i => ERASED)
  type Map = map<HalfWord, HalfWord>

  /** Number of 32-bit slots; slot 0 is the header, slot k holds data at 2k and address at 2k+1. */
  function Slots(p: Page): (n: nat)
    ensures 2 * n == |p|
  {
    |p| / 2
  }

  ghost predicate BlankSlot(p: Page, k: nat)
    requires k < Slots(p)
  {
    p[2 * k] == ERASED && p[2 * k + 1] == ERASED
  }

  ghost predicate AllBlank(p: Page) {
    forall i :: 0 <= i < |p| ==> p[i] == ERASED
  }

  /** The first blank slot at or after k. */
  ghost function UsedFrom(p: Page, k: nat): (r: nat)
    requires k <= Slots(p)
    ensures k <= r <= Slots(p)
    ensures forall j :: k <= j < r ==> !BlankSlot(p, j)
    ensures r < Slots(p) ==> BlankSlot(p, r)
    decreases Slots(p) - k
  {
    if k == Slots(p) || BlankSlot(p, k) then k else UsedFrom(p, k + 1)
  }

  ghost function Used(p: Page): nat {
    UsedFrom(p, 0)
  }

  /** Used slots form a prefix of the page. */
  ghost predicate PrefixUsed(p: Page) {
    forall k :: Used(p) <= k < Slots(p) ==> BlankSlot(p, k)
  }

  /** Replays the records in slots 1..n-1, oldest first. A record without address is not there yet. */
  ghost function Replay(p: Page, n: nat): Map
    requires n <= Slots(p)
  {
    if n <= 1 then map[]
    else if p[2 * (n - 1) + 1] == ERASED then Replay(p, n - 1)
    else Replay(p, n - 1)[p[2 * (n - 1) + 1] := p[2 * (n - 1)]]
  }

  ghost function Contents(p: Page): Map {
    Replay(p, Slots(p))
  }

  /** The page after the two half-word programs that append a record. */
  ghost function AppendRecord(p: Page, v: HalfWord, d: HalfWord): Page
    requires Used(p) < Slots(p)
  {
    HalfAppend(p, d)[2 * Used(p) + 1 := v]
  }

  /** The page when only the data half-word of a record has been programmed. */
  ghost function HalfAppend(p: Page, d: HalfWord): Page
    requires Used(p) < Slots(p)
  {
    p[2 * Used(p) := d]
  }

  lemma {:induction false} UsedIs(p: Page, k: nat, n: nat)
    requires k <= n <= Slots(p)
    requires forall j :: k <= j < n ==> !BlankSlot(p, j)
    requires n < Slots(p) ==> BlankSlot(p, n)
    ensures UsedFrom(p, k) == n
    decreases n - k
  {
    if k < n {
      UsedIs(p, k + 1, n);
    }
  }

  lemma {:induction false} ReplayAgree(p: Page, q: Page, n: nat)
    requires n <= Slots(p)
    requires forall i :: 2 <= i < 2 * n ==> p[i] == q[i]
    ensures Replay(p, n) == Replay(q, n)
  {
    if n > 1 {
      ReplayAgree(p, q, n - 1);
    }
  }

  /** Slots without an address do not contribute. */
  lemma {:induction false} ReplaySkip(p: Page, n: nat, m: nat)
    requires 1 <= n <= m <= Slots(p)
    requires forall k :: n <= k < m ==> p[2 * k + 1] == ERASED
    ensures Replay(p, m) == Replay(p, n)
    decreases m
  {
    if n < m {
      ReplaySkip(p, n, m - 1);
    }
  }

  /** A scan from the newest record down may stop looking at slots with other addresses. */
  lemma {:induction false} ReplayOther(p: Page, n: nat, m: nat, v: HalfWord)
    requires 1 <= n <= m <= Slots(p)
    requires forall k :: n <= k < m ==> p[2 * k + 1] != v
    ensures v in Replay(p, m) <==> v in Replay(p, n)
    ensures v in Replay(p, m) ==> Replay(p, m)[v] == Replay(p, n)[v]
    decreases m
  {
    if n < m {
      ReplayOther(p, n, m - 1, v);
    }
  }

  /**
   Each record is two half-words from the third on, data before address; a page holds a value for exactly
   the addresses of its records, and it is the data in front of the last occurrence of the address.
   */
  lemma NewestRecord(p: Page, v: HalfWord)
    requires v != 0xFFFF
    ensures v in Contents(p) <==> exists k :: 1 <= k < 0x1000 && p[2 * k + 1] == v
    ensures forall k :: 1 <= k < 0x1000 && p[2 * k + 1] == v && (forall j :: k < j < 0x1000 ==> p[2 * j + 1] != v) ==>
      Contents(p)[v] == p[2 * k]
  {
    if exists k :: 1 <= k < 0x1000 && p[2 * k + 1] == v {
      var k := LastWith(p, v, 0x1000);
      ReplayOther(p, k + 1, Slots(p), v);
    } else {
      ReplayOther(p, 1, Slots(p), v);
    }
  }

  /** The last slot below n that has the address v. */
  lemma {:induction false} LastWith(p: Page, v: HalfWord, n: nat) returns (k: nat)
    requires n <= 0x1000 && exists k :: 1 <= k < n && p[2 * k + 1] == v
    ensures 1 <= k < n && p[2 * k + 1] == v && forall j :: k < j < n ==> p[2 * j + 1] != v
  {
    if p[2 * (n - 1) + 1] == v {
      k := n - 1;
    } else {
      k := LastWith(p, v, n - 1);
    }
  }

  lemma ContentsOfUsed(p: Page)
    requires PrefixUsed(p) && 1 <= Used(p)
    ensures Contents(p) == Replay(p, Used(p))
  {
    forall k | Used(p) <= k < Slots(p) ensures p[2 * k + 1] == ERASED {
      assert BlankSlot(p, k);
    }
    ReplaySkip(p, Used(p), Slots(p));
  }

  /** Appending a complete record updates exactly one entry and uses exactly one slot. */
  lemma AppendSpec(p: Page, v: HalfWord, d: HalfWord)
    requires PrefixUsed(p) && 1 <= Used(p) < Slots(p) && v != ERASED
    ensures var q := AppendRecord(p, v, d);
            PrefixUsed(q) && Used(q) == Used(p) + 1 && Contents(q) == Contents(p)[v := d]
  {
    var f, q := Used(p), AppendRecord(p, v, d);
    forall j | 0 <= j < f ensures !BlankSlot(q, j) {
      assert !BlankSlot(p, j);
    }
    forall k | f < k < Slots(p) ensures BlankSlot(q, k) {
      assert BlankSlot(p, k);
    }
    UsedIs(q, 0, f + 1);
    ContentsOfUsed(p);
    ContentsOfUsed(q);
    ReplayAgree(p, q, f);
  }

  /** A torn append (data programmed, address not) leaves the contents alone. */
  lemma TornAppendSpec(p: Page, d: HalfWord)
    requires PrefixUsed(p) && 1 <= Used(p) < Slots(p)
    ensures var q := HalfAppend(p, d);
            PrefixUsed(q) && Used(p) <= Used(q) <= Used(p) + 1 && Contents(q) == Contents(p)
  {
    var f, q := Used(p), HalfAppend(p, d);
    assert BlankSlot(p, f);
    forall j | 0 <= j < f ensures !BlankSlot(q, j) {
      assert !BlankSlot(p, j);
    }
    forall k | f < k < Slots(p) ensures BlankSlot(q, k) {
      assert BlankSlot(p, k);
    }
    UsedIs(q, 0, if d == ERASED then f else f + 1);
    ContentsOfUsed(p);
    ReplayAgree(p, q, f);
    forall k | f <= k < Slots(q) ensures q[2 * k + 1] == ERASED {
      assert k == f || BlankSlot(q, k);
    }
    ReplaySkip(q, f, Slots(q));
  }

  /** Rewriting the header of a page that stays marked changes neither use nor contents. */
  lemma HeaderSpec(p: Page, h: HalfWord)
    requires p[0] != ERASED && h != ERASED
    ensures var q: Page := p[0 := h];
            Used(q) == Used(p) >= 1 && (PrefixUsed(p) ==> PrefixUsed(q)) && Contents(q) == Contents(p)
  {
    var q: Page := p[0 := h];
    assert !BlankSlot(p, 0);
    var f := Used(p);
    forall k | 0 < k < Slots(p) ensures BlankSlot(q, k) == BlankSlot(p, k) {
    }
    forall j | 0 <= j < f ensures !BlankSlot(q, j) {
      assert !BlankSlot(p, j);
    }
    UsedIs(q, 0, f);
    ReplayAgree(p, q, Slots(p));
  }

  /** Marking a blank page gives an empty log with every record slot free. */
  lemma FreshPageSpec(p: Page, h: HalfWord)
    requires AllBlank(p) && h != ERASED
    ensures var q: Page := p[0 := h];
            Used(q) == 1 && PrefixUsed(q) && Contents(q) == map[]
  {
    var q: Page := p[0 := h];
    UsedIs(q, 0, 1);
    ReplaySkip(q, 1, Slots(q));
  }

  /** Every entry of the contents comes from some record, and every record address is present. */
  lemma {:induction false} ReplayFromRecords(p: Page, n: nat, m: Map)
    requires n <= Slots(p)
    requires forall k :: 1 <= k < n && p[2 * k + 1] != ERASED ==> p[2 * k + 1] in m && m[p[2 * k + 1]] == p[2 * k]
    ensures forall u :: u in Replay(p, n) ==> u in m && m[u] == Replay(p, n)[u]
    ensures forall k :: 1 <= k < n && p[2 * k + 1] != ERASED ==> p[2 * k + 1] in Replay(p, n)
  {
    if n > 1 {
      ReplayFromRecords(p, n - 1, m);
    }
  }

  // ----- the two pages together -----

  datatype Flash = Flash(p0: Page, p1: Page)

  ghost function Restrict(m: Map, tab: seq<HalfWord>): Map {
    map u | u in m && u in tab :: m[u]
  }

  /** The first record of a receiving page: the update that triggered the transfer. */
  ghost function FirstRecord(r: Page): Map {
    if r[3] == ERASED then map[] else map[r[3] := r[2]]
  }

  /** What a transfer from a page with contents m to the receiving page r is heading for. */
  ghost function Merged(m: Map, r: Page, tab: seq<HalfWord>): Map {
    Restrict(m, tab) + FirstRecord(r)
  }

  /** The key/value map that a flash state stands for, whatever the headers say. */
  ghost function Recovered(s: Flash, tab: seq<HalfWord>): Map {
    var h0, h1 := s.p0[0], s.p1[0];
    if h0 == VALID_PAGE && h1 == RECEIVE_DATA then Merged(Contents(s.p0), s.p1, tab)
    else if h0 == RECEIVE_DATA && h1 == VALID_PAGE then Merged(Contents(s.p1), s.p0, tab)
    else if h0 in {VALID_PAGE, RECEIVE_DATA} && h1 == ERASED then Contents(s.p0)
    else if h0 == ERASED && h1 in {VALID_PAGE, RECEIVE_DATA} then Contents(s.p1)
    else map[]
  }

  /** Every record of the receiving page agrees with the map the transfer is heading for. */
  ghost predicate Transferring(v: Page, r: Page, tab: seq<HalfWord>) {
    && v[0] == VALID_PAGE && r[0] == RECEIVE_DATA
    && PrefixUsed(v) && PrefixUsed(r)
    && forall k :: 1 <= k < Used(r) && r[2 * k + 1] != ERASED ==>
         r[2 * k + 1] in Merged(Contents(v), r, tab) && Merged(Contents(v), r, tab)[r[2 * k + 1]] == r[2 * k]
  }

  /** A transfer is waiting, with any records on the receiving page. */
  ghost predicate Pending(v: Page, r: Page) {
    v[0] == VALID_PAGE && r[0] == RECEIVE_DATA && PrefixUsed(v) && PrefixUsed(r)
  }

  /**
   What resuming a transfer makes of the receiving page: the newest values of the table variables, apart
   from the one whose record came first, are appended to what is there.
   */
  ghost function Resumed(v: Page, r: Page, tab: seq<HalfWord>): Map {
    Contents(r) + map u | u in Contents(v) && u in tab && u != r[3] :: Contents(v)[u]
  }

  ghost predicate BothValid(s: Flash) {
    s.p0[0] == VALID_PAGE && s.p1[0] == VALID_PAGE
  }

  ghost predicate BothErased(s: Flash) {
    s.p0[0] == ERASED && s.p1[0] == ERASED
  }

  /** One page marked (valid, or fully received), the other with an erased header. */
  ghost predicate OneMarked(p: Page, other: Page) {
    p[0] in {VALID_PAGE, RECEIVE_DATA} && PrefixUsed(p) && other[0] == ERASED
  }

  /** The page that reads come from: page 0 when it is valid, else page 1. */
  ghost function Source(s: Flash): Page {
    if s.p0[0] == VALID_PAGE then s.p0 else s.p1
  }

  ghost function Receiver(s: Flash): Page {
    if s.p0[0] == VALID_PAGE then s.p1 else s.p0
  }

  /** A transfer is under way in one direction or the other. */
  ghost predicate InTransfer(s: Flash, tab: seq<HalfWord>) {
    Transferring(Source(s), Receiver(s), tab)
  }

  ghost predicate IsPending(s: Flash) {
    Pending(Source(s), Receiver(s))
  }

  /** The map that a completed recovery will give. */
  ghost function Outcome(s: Flash, tab: seq<HalfWord>): Map {
    if IsPending(s) then Resumed(Source(s), Receiver(s), tab) else Recovered(s, tab)
  }

  /** Page 0 is valid and page 1 has a header that no operation writes. */
  ghost predicate Foreign(s: Flash) {
    s.p0[0] == VALID_PAGE && s.p1[0] !in {VALID_PAGE, RECEIVE_DATA, ERASED} && PrefixUsed(s.p0)
  }

  /** The states the store can be in between any two flash operations. */
  ghost predicate Consistent(s: Flash, tab: seq<HalfWord>) {
    || OneMarked(s.p0, s.p1)
    || OneMarked(s.p1, s.p0)
    || InTransfer(s, tab)
    || (BothValid(s) && PrefixUsed(s.p0) && PrefixUsed(s.p1))
    || BothErased(s)
  }

  ghost predicate Active(p: Page, other: Page) {
    p[0] == VALID_PAGE && PrefixUsed(p) && AllBlank(other)
  }

  /** The states between operations of a store that has not lost power. */
  ghost predicate Normal(s: Flash) {
    Active(s.p0, s.p1) || Active(s.p1, s.p0)
  }

  ghost predicate NoneValid(s: Flash) {
    s.p0[0] != VALID_PAGE && s.p1[0] != VALID_PAGE
  }

  /** The header combinations that EE_Init answers by formatting both pages. */
  ghost predicate Formats(s: Flash) {
    var h0, h1 := s.p0[0], s.p1[0];
    || (h0 == ERASED && h1 !in {VALID_PAGE, RECEIVE_DATA})
    || (h0 == RECEIVE_DATA && h1 !in {VALID_PAGE, ERASED})
    || (h0 == VALID_PAGE && h1 == VALID_PAGE)
    || h0 !in {ERASED, RECEIVE_DATA, VALID_PAGE}
  }

  /** One more record on the receiving page keeps the transfer invariant and the goal. */
  lemma TransferAppend(v: Page, r: Page, tab: seq<HalfWord>, u: HalfWord, d: HalfWord)
    requires Transferring(v, r, tab) && u != ERASED && Used(r) < Slots(r)
    requires Used(r) == 1 || (u in Merged(Contents(v), r, tab) && Merged(Contents(v), r, tab)[u] == d)
    ensures var q := AppendRecord(r, u, d);
            && Transferring(v, q, tab) && Used(q) == Used(r) + 1
            && Contents(q) == Contents(r)[u := d]
            && Merged(Contents(v), q, tab) == Merged(Contents(v), r, tab)[u := d]
  {
    assert !BlankSlot(r, 0);
    AppendSpec(r, u, d);
    var q, f := AppendRecord(r, u, d), Used(r);
    if f == 1 {
      assert BlankSlot(r, 1);
    } else {
      assert !BlankSlot(r, 1) && q[2] == r[2] && q[3] == r[3];
    }
    var goal := Merged(Contents(v), q, tab);
    forall k | 1 <= k < Used(q) && q[2 * k + 1] != ERASED
      ensures q[2 * k + 1] in goal && goal[q[2 * k + 1]] == q[2 * k]
    {
      if k < f {
        assert q[2 * k + 1] == r[2 * k + 1] && q[2 * k] == r[2 * k];
      }
    }
  }

  lemma TransferTornAppend(v: Page, r: Page, tab: seq<HalfWord>, d: HalfWord)
    requires Transferring(v, r, tab) && Used(r) < Slots(r)
    ensures var q := HalfAppend(r, d);
            && Transferring(v, q, tab) && Used(q) <= Used(r) + 1
            && Merged(Contents(v), q, tab) == Merged(Contents(v), r, tab)
  {
    assert !BlankSlot(r, 0);
    TornAppendSpec(r, d);
    var q, f := HalfAppend(r, d), Used(r);
    assert BlankSlot(r, f);
    assert q[3] == r[3];
    assert r[3] != ERASED ==> q[2] == r[2];
    var goal := Merged(Contents(v), r, tab);
    forall k | 1 <= k < Used(q) && q[2 * k + 1] != ERASED
      ensures q[2 * k + 1] in goal && goal[q[2 * k + 1]] == q[2 * k]
    {
      assert k != f;
      assert q[2 * k + 1] == r[2 * k + 1] && q[2 * k] == r[2 * k];
    }
  }

  /** Resuming a transfer that is under way leads where it was heading. */
  lemma ResumedIsMerged(v: Page, r: Page, tab: seq<HalfWord>)
    requires Transferring(v, r, tab) && ERASED !in tab
    ensures Resumed(v, r, tab) == Merged(Contents(v), r, tab)
  {
    var goal, m := Merged(Contents(v), r, tab), Resumed(v, r, tab);
    assert !BlankSlot(r, 0);
    ContentsOfUsed(r);
    ReplayFromRecords(r, Used(r), goal);
    if r[3] != ERASED {
      assert !BlankSlot(r, 1);
      assert r[2 * 1 + 1] in Replay(r, Used(r));
    }
    assert forall u :: u in goal <==> u in m;
    assert forall u :: u in goal ==> m[u] == goal[u];
  }

  /** For the states that writes leave behind, that is the recovered map. */
  lemma OutcomeIsRecovered(s: Flash, tab: seq<HalfWord>)
    requires Consistent(s, tab) && ERASED !in tab
    ensures Outcome(s, tab) == Recovered(s, tab) && (IsPending(s) ==> InTransfer(s, tab))
  {
    if IsPending(s) {
      ResumedIsMerged(Source(s), Receiver(s), tab);
    }
  }
}
