/** What holds over every run of the encrypted channel between two resets. */
module CryptRuns {
  import opened Words
  import opened Wrappers
  import opened Crypt
  import Ocb

  datatype Delivery = Delivery(datagram: seq<byte>, now: nat)

  /** The receiver after a sequence of datagrams, whoever sent them. */
  function Run(c: Ocb.Cipher, rx0: Receiver, ds: seq<Delivery>): (rx: Receiver)
    requires WellFormed(rx0)
    ensures WellFormed(rx)
  {
    if ds == [] then rx0 else
      var last := ds[|ds| - 1];
      After(c, Run(c, rx0, ds[..|ds| - 1]), last.datagram, last.now)
  }

  /** The full nonces that were accepted, in order. */
  function Accepted(c: Ocb.Cipher, rx0: Receiver, ds: seq<Delivery>): seq<u128>
    requires WellFormed(rx0)
  {
    if ds == [] then [] else
      var front, d := ds[..|ds| - 1], ds[|ds| - 1].datagram;
      var rx := Run(c, rx0, front);
      if Commits(c, rx, d) then Accepted(c, rx0, front) + [Judge(rx, d[0]).nonce] else Accepted(c, rx0, front)
  }

  // ----- Nonces without wrap-around -----

  /** How far the nonce of a datagram lies from the receiver's, as the receiver sees it. */
  function Distance(rx: Receiver, b0: byte): (d: int)
    ensures -128 <= d < 128
  {
    Signed(b0 - LowByte(rx.nonce))
  }

  lemma {:induction false} AddMultiple(x: int, r: int)
    ensures (0x100 * x + r) % 0x100 == r % 0x100
    ensures (0x100 * x + r) / 0x100 == x + r / 0x100
  {
  }

  lemma {:induction false} WrapKeepsLowBytes(n: int)
    ensures LowByte(Wrap128(n)) == LowByte(n)
    ensures Page(Wrap128(n)) == Page(n)
  {
    var q, r := n / TWO128, Wrap128(n);
    var x := 0x1_0000_0000_0000_0000_0000_0000_0000 * q;
    assert n == 0x100 * (0x100 * x) + r;
    hide Wrap128;
    AddMultiple(0x100 * x, r);
    AddMultiple(x, r / 0x100);
  }

  lemma {:induction false} WrapSum(n: int, d: int)
    ensures Wrap128(Wrap128(n) + d) == Wrap128(n + d)
  {
  }

  lemma {:induction false} DistanceIsExact(b0: byte, nonce: u128)
    ensures LowByte(nonce + Signed(b0 - LowByte(nonce))) == b0
    ensures LowByte(nonce + 1) == b0 <==> Signed(b0 - LowByte(nonce)) == 1
  {
    var low, page := nonce % 0x100, nonce / 0x100;
    var diff := Signed(b0 - low);
    SignedDifference(low, b0);
    hide Signed;
    assert nonce + diff == 0x100 * page + (low + diff) && nonce + 1 == 0x100 * page + (low + 1);
    AddMultiple(page, low + diff);
    AddMultiple(page, low + 1);
  }

  /** A signed difference of bytes leads from one to the other, round the byte at most once. */
  lemma {:induction false} SignedDifference(low: byte, b0: byte)
    ensures (low + Signed(b0 - low)) % 0x100 == b0
    ensures (low + 1) % 0x100 == b0 <==> Signed(b0 - low) == 1
  {
    var x := (b0 - low) % 0x100;
    assert x == b0 - low || x == b0 - low + 0x100;
  }

  /** The verdict in terms of the distance alone. */
  lemma {:induction false} JudgeByDistance(rx: Receiver, b0: byte)
    requires WellFormed(rx)
    ensures var diff := Distance(rx, b0);
      var nonce := Wrap128(rx.nonce + diff);
      && LowByte(nonce) == b0
      && (diff > 0 ==> Judge(rx, b0) == Accept(nonce, false, diff - 1))
      && (-30 < diff <= 0 && rx.history[b0] == Page(nonce) ==> Judge(rx, b0) == Refuse(Repeat))
      && (-30 < diff <= 0 && rx.history[b0] != Page(nonce) ==> Judge(rx, b0) == Accept(nonce, true, -1))
      && (diff <= -30 ==> Judge(rx, b0) == Refuse(Late))
  {
    hide Page, LowByte, Wrap128, Signed;
    DistanceIsExact(b0, rx.nonce);
    WrapKeepsLowBytes(rx.nonce + 1);
    WrapKeepsLowBytes(rx.nonce + Distance(rx, b0));
  }

  /** The run with unbounded nonces: the position stands for the receiver's nonce, the log for what it accepted. */
  datatype Track = Track(rx: Receiver, pos: int, log: seq<int>)

  function Max(a: int, b: int): int {
    if a > b then a else b
  }

  function Step(c: Ocb.Cipher, t: Track, d: Delivery): Track
    requires WellFormed(t.rx)
  {
    if Commits(c, t.rx, d.datagram) then
      var n := t.pos + Distance(t.rx, d.datagram[0]);
      Track(After(c, t.rx, d.datagram, d.now), Max(t.pos, n), t.log + [n])
    else t
  }

  function Follow(c: Ocb.Cipher, rx0: Receiver, ds: seq<Delivery>): (t: Track)
    requires WellFormed(rx0)
    ensures t.rx == Run(c, rx0, ds)
  {
    if ds == [] then Track(rx0, rx0.nonce, []) else Step(c, Follow(c, rx0, ds[..|ds| - 1]), ds[|ds| - 1])
  }

  ghost predicate Inv(rx0: Receiver, t: Track) {
    && WellFormed(rx0)
    && WellFormed(t.rx)
    && t.rx.nonce == Wrap128(t.pos)
    && rx0.nonce <= t.pos
    && (forall i :: 0 <= i < |t.log| ==> rx0.nonce - 30 < t.log[i] <= t.pos)
    && (forall i, j :: 0 <= i < j < |t.log| ==> t.log[i] != t.log[j] && t.log[j] > t.log[i] - 30)
    && (forall i :: 0 <= i < |t.log| && t.log[i] > t.pos - 30 ==> t.rx.history[LowByte(t.log[i])] == Page(t.log[i]))
  }

  /** An accepted nonce's place on the unbounded line, and what is known of it. */
  lemma {:induction false} AcceptedNonce(rx0: Receiver, t: Track, b0: byte)
    requires Inv(rx0, t) && Judge(t.rx, b0).Accept?
    ensures var n := t.pos + Distance(t.rx, b0);
      && LowByte(n) == b0
      && Judge(t.rx, b0).nonce == Wrap128(n)
      && Page(Judge(t.rx, b0).nonce) == Page(n)
      && Judge(t.rx, b0).late == (n <= t.pos)
      && t.pos - 30 < n < t.pos + 128
      && (n <= t.pos ==> t.rx.history[b0] != Page(n))
      && Judge(t.rx, b0).lost == if n <= t.pos then -1 else n - t.pos - 1
  {
    hide LowByte, Page, Wrap128, Judge, Distance;
    var diff := Distance(t.rx, b0);
    JudgeByDistance(t.rx, b0);
    WrapSum(t.pos, diff);
    WrapKeepsLowBytes(t.pos + diff);
  }

  lemma {:induction false} SameSlot(m: int, n: int, pos: int)
    requires LowByte(m) == LowByte(n) && pos - 30 < m <= pos && pos - 30 < n <= pos
    ensures m == n
  {
  }

  /** The slots of the nonces that may still come late stay right. */
  lemma {:induction false} HistoryKept(history: seq<byte>, log: seq<int>, pos: int, n: int, b0: byte)
    requires |history| == 0x100 && LowByte(n) == b0 && pos - 30 < n
    requires forall i :: 0 <= i < |log| ==> log[i] <= pos
    requires forall i :: 0 <= i < |log| && log[i] > pos - 30 ==> history[LowByte(log[i])] == Page(log[i])
    ensures var h, l, p := history[b0 := Page(n)], log + [n], Max(pos, n);
      forall i :: 0 <= i < |l| && l[i] > p - 30 ==> h[LowByte(l[i])] == Page(l[i])
  {
    hide LowByte, Page;
    var h, l, p := history[b0 := Page(n)], log + [n], Max(pos, n);
    forall i | 0 <= i < |l| && l[i] > p - 30
      ensures h[LowByte(l[i])] == Page(l[i])
    {
      if LowByte(l[i]) == b0 {
        SameSlot(l[i], n, p);
      }
    }
  }

  /** A late nonce that passes the history test is new. */
  lemma {:induction false} AcceptedIsNew(rx0: Receiver, t: Track, n: int)
    requires Inv(rx0, t) && t.pos - 30 < n
    requires n <= t.pos ==> t.rx.history[LowByte(n)] != Page(n)
    ensures n !in t.log
  {
    hide LowByte, Page;
  }

  /** A new nonce in the window keeps the order of the log. */
  lemma {:induction false} LogKept(start: int, log: seq<int>, pos: int, n: int)
    requires start <= pos && pos - 30 < n && n !in log
    requires forall i :: 0 <= i < |log| ==> start - 30 < log[i] <= pos
    requires forall i, j :: 0 <= i < j < |log| ==> log[i] != log[j] && log[j] > log[i] - 30
    ensures var l, p := log + [n], Max(pos, n);
      && (forall i :: 0 <= i < |l| ==> start - 30 < l[i] <= p)
      && (forall i, j :: 0 <= i < j < |l| ==> l[i] != l[j] && l[j] > l[i] - 30)
  {
  }

  lemma {:induction false} StepKeepsInv(c: Ocb.Cipher, rx0: Receiver, t: Track, d: Delivery)
    requires Inv(rx0, t)
    ensures Inv(rx0, Step(c, t, d))
  {
    hide LowByte, Page, Wrap128, Judge, Distance, TagMatches, Wrap32;
    if Commits(c, t.rx, d.datagram) {
      var n, b0 := t.pos + Distance(t.rx, d.datagram[0]), d.datagram[0];
      AcceptedNonce(rx0, t, b0);
      AcceptedIsNew(rx0, t, n);
      HistoryKept(t.rx.history, t.log, t.pos, n, b0);
      LogKept(rx0.nonce, t.log, t.pos, n);
      var u := Step(c, t, d);
      assert u.rx.history == t.rx.history[b0 := Page(n)] && u.log == t.log + [n] && u.pos == Max(t.pos, n);
    }
  }

  lemma {:induction false} FollowKeepsInv(c: Ocb.Cipher, rx0: Receiver, ds: seq<Delivery>)
    requires WellFormed(rx0)
    ensures Inv(rx0, Follow(c, rx0, ds))
    ensures Follow(c, rx0, ds).pos <= rx0.nonce + 127 * |ds|
  {
    hide Inv;
    if ds == [] {
      FollowStart(rx0);
    } else {
      FollowKeepsInv(c, rx0, ds[..|ds| - 1]);
      StepKeepsInv(c, rx0, Follow(c, rx0, ds[..|ds| - 1]), ds[|ds| - 1]);
    }
  }

  lemma {:induction false} FollowStart(rx0: Receiver)
    requires WellFormed(rx0)
    ensures Inv(rx0, Track(rx0, rx0.nonce, []))
  {
  }

  // ----- No replay -----

  /** The accepted nonces are the logged ones, wrapped to 128 bits. */
  lemma {:induction false} AcceptedIsLogged(c: Ocb.Cipher, rx0: Receiver, ds: seq<Delivery>)
    requires WellFormed(rx0)
    ensures var a, log := Accepted(c, rx0, ds), Follow(c, rx0, ds).log;
      |a| == |log| && forall i :: 0 <= i < |a| ==> a[i] == Wrap128(log[i])
  {
    hide Judge, TagMatches, Wrap128, After;
    if ds != [] {
      var front, d := ds[..|ds| - 1], ds[|ds| - 1].datagram;
      AcceptedIsLogged(c, rx0, front);
      FollowKeepsInv(c, rx0, front);
      if Commits(c, Run(c, rx0, front), d) {
        AcceptedNonce(rx0, Follow(c, rx0, front), d[0]);
      }
    }
  }

  lemma {:induction false} WrapIsInjectiveNear(a: int, b: int)
    requires a != b && a - b < TWO128 && b - a < TWO128
    ensures Wrap128(a) != Wrap128(b)
  {
  }

  /**
   * No full nonce is accepted twice, whatever is sent, in any run of up to 2^120 datagrams
   * without a reset, even if the 128-bit counter wraps meanwhile.
   */
  lemma {:induction false} NoReplay(c: Ocb.Cipher, rx0: Receiver, ds: seq<Delivery>)
    requires WellFormed(rx0)
    requires |ds| <= 0x1_0000_0000_0000_0000_0000_0000_0000_00
    ensures var a := Accepted(c, rx0, ds);
      forall i, j :: 0 <= i < j < |a| ==> a[i] != a[j]
  {
    hide Wrap128, Follow, Accepted;
    var a, t := Accepted(c, rx0, ds), Follow(c, rx0, ds);
    AcceptedIsLogged(c, rx0, ds);
    FollowKeepsInv(c, rx0, ds);
    forall i, j | 0 <= i < j < |a|
      ensures a[i] != a[j]
    {
      WrapIsInjectiveNear(t.log[i], t.log[j]);
    }
  }

  // ----- What a repeat verdict means -----

  /** The last logged nonce that wrote a slot of the history. */
  function LastWriter(log: seq<int>, slot: byte): Option<int> {
    if log == [] then None
    else if LowByte(log[|log| - 1]) == slot then Some(log[|log| - 1])
    else LastWriter(log[..|log| - 1], slot)
  }

  /** The byte a slot holds: the page of its last writer, or what it held at the start. */
  function SlotByte(rx0: Receiver, log: seq<int>, slot: byte): byte
    requires WellFormed(rx0)
  {
    match LastWriter(log, slot)
    case None => rx0.history[slot]
    case Some(m) => Page(m)
  }

  lemma {:induction false} HistoryIsLastWriter(c: Ocb.Cipher, rx0: Receiver, ds: seq<Delivery>, slot: byte)
    requires WellFormed(rx0)
    ensures Follow(c, rx0, ds).rx.history[slot] == SlotByte(rx0, Follow(c, rx0, ds).log, slot)
  {
    hide Judge, TagMatches, LowByte, Page, Distance, Wrap32, Inv;
    if ds != [] {
      var front, d := ds[..|ds| - 1], ds[|ds| - 1];
      HistoryIsLastWriter(c, rx0, front, slot);
      var t, u := Follow(c, rx0, front), Follow(c, rx0, ds);
      FollowKeepsInv(c, rx0, front);
      if Commits(c, t.rx, d.datagram) {
        AcceptedNonce(rx0, t, d.datagram[0]);
        assert u.log[..|u.log| - 1] == t.log;
      }
    }
  }

  lemma {:induction false} LastWriterIsLogged(log: seq<int>, slot: byte)
    ensures match LastWriter(log, slot)
      case None => forall i :: 0 <= i < |log| ==> LowByte(log[i]) != slot
      case Some(m) => exists k :: 0 <= k < |log| && log[k] == m && LowByte(m) == slot &&
                                  forall i :: k < i < |log| ==> LowByte(log[i]) != slot
  {
    hide LowByte;
    if log != [] {
      var front := log[..|log| - 1];
      LastWriterIsLogged(front, slot);
      var last := log[|log| - 1];
      if LowByte(last) != slot && LastWriter(front, slot).Some? {
        var m := LastWriter(front, slot).value;
        var k :| 0 <= k < |front| && front[k] == m && LowByte(m) == slot &&
                 forall i :: k < i < |front| ==> LowByte(front[i]) != slot;
        assert log[k] == m;
      }
    }
  }

  /** A logged nonce that may still come late is the last writer of its slot. */
  lemma {:induction false} RecentIsLastWriter(rx0: Receiver, t: Track, n: int)
    requires Inv(rx0, t) && t.pos - 30 < n <= t.pos && n in t.log
    ensures LastWriter(t.log, LowByte(n)) == Some(n)
  {
    LastWriterIsLogged(t.log, LowByte(n));
    var i :| 0 <= i < |t.log| && t.log[i] == n;
    var m := LastWriter(t.log, LowByte(n)).value;
    var k :| 0 <= k < |t.log| && t.log[k] == m && LowByte(m) == LowByte(n) &&
             forall j :: k < j < |t.log| ==> LowByte(t.log[j]) != LowByte(n);
    if m != n {
      assert t.log[k] > t.log[i] - 30;
      NearSlot(m, n);
    }
  }

  lemma {:induction false} NearSlot(m: int, n: int)
    requires LowByte(m) == LowByte(n) && n - 30 < m < n + 30
    ensures m == n
  {
  }

  lemma {:induction false} SamePlace(m: int, n: int)
    requires LowByte(m) == LowByte(n) && Page(m) == Page(n) && -65536 < m - n < 65536
    ensures m == n
  {
  }

  /** A repeat verdict says only that the slot holds the page of the nonce. */
  lemma {:induction false} RepeatMatchesSlot(rx0: Receiver, t: Track, b0: byte)
    requires Inv(rx0, t) && Judge(t.rx, b0) == Refuse(Repeat)
    ensures var n := t.pos + Distance(t.rx, b0);
      LowByte(n) == b0 && t.pos - 30 < n <= t.pos && t.rx.history[b0] == Page(n)
  {
    hide LowByte, Page, Wrap128, Judge, Distance;
    var n := t.pos + Distance(t.rx, b0);
    JudgeByDistance(t.rx, b0);
    WrapSum(t.pos, Distance(t.rx, b0));
    WrapKeepsLowBytes(n);
  }

  lemma {:induction false} SlotVerdict(rx0: Receiver, t: Track, n: int)
    requires Inv(rx0, t) && t.pos - 30 < n <= t.pos
    requires SlotByte(rx0, t.log, LowByte(n)) == Page(n)
    ensures match LastWriter(t.log, LowByte(n))
      case None => n !in t.log && rx0.history[LowByte(n)] == Page(n)
      case Some(m) => n in t.log <==> -65536 < m - n < 65536
  {
    hide Inv, LowByte, Page, LastWriter;
    LastWriterIsLogged(t.log, LowByte(n));
    if n in t.log {
      RecentIsLastWriter(rx0, t, n);
    } else if LastWriter(t.log, LowByte(n)).Some? {
      var m := LastWriter(t.log, LowByte(n)).value;
      if -65536 < m - n < 65536 {
        SamePlace(m, n);
      }
    }
  }

  /**
   * A repeat verdict on a slot that this run has written is right exactly when the last writer of
   * the slot lies fewer than 65536 nonces away; on a slot not yet written it is always wrong.
   */
  lemma {:induction false} RepeatVerdict(c: Ocb.Cipher, rx0: Receiver, ds: seq<Delivery>, b0: byte)
    requires WellFormed(rx0)
    requires Judge(Run(c, rx0, ds), b0) == Refuse(Repeat)
    ensures var t := Follow(c, rx0, ds);
      var n := t.pos + Distance(t.rx, b0);
      match LastWriter(t.log, b0)
      case None => n !in t.log && rx0.history[b0] == Page(n)
      case Some(m) => n in t.log <==> -65536 < m - n < 65536
  {
    hide Inv, LowByte, Page, Judge, Distance, Follow, LastWriter, SlotByte;
    var t := Follow(c, rx0, ds);
    FollowKeepsInv(c, rx0, ds);
    RepeatMatchesSlot(rx0, t, b0);
    HistoryIsLastWriter(c, rx0, ds, b0);
    SlotVerdict(rx0, t, t.pos + Distance(t.rx, b0));
  }

  /**
   * The history starts zeroed and so does the page of the first 256 nonces: after a reset none of
   * them is accepted late, lost or not, as long as nothing below the start was accepted.
   */
  lemma {:induction false} FirstPageNeverLate(c: Ocb.Cipher, now: nat, ds: seq<Delivery>, b0: byte)
    requires var t := Follow(c, Fresh(now), ds);
      var n := t.pos + Distance(t.rx, b0);
      && (forall i :: 0 <= i < |t.log| ==> t.log[i] >= TWO127)
      && t.pos - 30 < n <= t.pos && TWO127 <= n < TWO127 + 0x100
    ensures Judge(Run(c, Fresh(now), ds), b0) == Refuse(Repeat)
  {
    hide LowByte, Page, Judge, Distance, Follow, LastWriter, Wrap128;
    var t := Follow(c, Fresh(now), ds);
    var n := t.pos + Distance(t.rx, b0);
    FollowKeepsInv(c, Fresh(now), ds);
    JudgeByDistance(t.rx, b0);
    WrapSum(t.pos, Distance(t.rx, b0));
    WrapKeepsLowBytes(n);
    HistoryIsLastWriter(c, Fresh(now), ds, b0);
    LastWriterIsLogged(t.log, b0);
    FirstPage(n);
    if LastWriter(t.log, b0).Some? {
      OnlyWriter(LastWriter(t.log, b0).value, n);
    }
  }

  lemma {:induction false} FirstPage(n: int)
    requires TWO127 <= n < TWO127 + 0x100
    ensures Page(n) == 0
  {
    AddMultiple(0x80_0000_0000_0000_0000_0000_0000_0000, n - TWO127);
    AddMultiple(0x8000_0000_0000_0000_0000_0000_0000, 0);
  }

  lemma {:induction false} OnlyWriter(m: int, n: int)
    requires LowByte(m) == LowByte(n) && n < TWO127 + 0x100 && TWO127 <= m < n + 30 && TWO127 <= n
    ensures m == n
  {
  }

  // ----- Loss accounting -----

  lemma {:induction false} Congruent(a: int, b: int, k: int)
    requires a == b + k * TWO32
    ensures Wrap32(a) == Wrap32(b)
  {
    var q := b / TWO32;
    assert b == q * TWO32 + b % TWO32;
    assert a == (q + k) * TWO32 + b % TWO32;
  }

  lemma {:induction false} SumModulo(good: u32, lost: u32, skipped: int, nonce: int, moved: int)
    requires moved == skipped + 1
    ensures Wrap32(Wrap32(good + 1) + Wrap32(lost + skipped) - (nonce + moved)) == Wrap32(good + lost - nonce)
  {
  }

  /** Every datagram, whatever its fate, keeps received plus lost in step with the nonce. */
  lemma {:induction false} StepBalance(c: Ocb.Cipher, rx: Receiver, d: Delivery)
    requires WellFormed(rx)
    ensures var rx' := After(c, rx, d.datagram, d.now);
      Wrap32(rx'.good + rx'.lost - rx'.nonce) == Wrap32(rx.good + rx.lost - rx.nonce)
  {
    hide Judge, TagMatches, Page, Wrap32;
    if Commits(c, rx, d.datagram) {
      var v, diff := Judge(rx, d.datagram[0]), Distance(rx, d.datagram[0]);
      JudgeByDistance(rx, d.datagram[0]);
      hide Distance;
      if v.late {
        SumModulo(rx.good, rx.lost, -1, rx.nonce, 0);
      } else {
        SumModulo(rx.good, rx.lost, diff - 1, rx.nonce, diff);
        NonceModulo(Wrap32(rx.good + 1) + Wrap32(rx.lost + (diff - 1)), rx.nonce + diff);
      }
    }
  }

  lemma {:induction false} NonceModulo(a: int, n: int)
    ensures Wrap32(a - Wrap128(n)) == Wrap32(a - n)
  {
    Congruent(a - Wrap128(n), a - n, n / TWO128 * 0x1_0000_0000_0000_0000_0000_0000);
  }

  lemma {:induction false} RunBalance(c: Ocb.Cipher, rx0: Receiver, ds: seq<Delivery>)
    requires WellFormed(rx0)
    ensures var rx := Run(c, rx0, ds);
      Wrap32(rx.good + rx.lost - rx.nonce) == Wrap32(rx0.good + rx0.lost - rx0.nonce)
  {
    hide After, Wrap32;
    if ds != [] {
      RunBalance(c, rx0, ds[..|ds| - 1]);
      StepBalance(c, Run(c, rx0, ds[..|ds| - 1]), ds[|ds| - 1]);
    }
  }

  lemma {:induction false} GoodCount(c: Ocb.Cipher, rx0: Receiver, ds: seq<Delivery>)
    requires WellFormed(rx0)
    ensures Run(c, rx0, ds).good == Wrap32(rx0.good + |Follow(c, rx0, ds).log|)
  {
    hide Judge, TagMatches, Page, Distance, Wrap32;
    if ds == [] {
      SmallWrap(rx0.good);
    } else {
      GoodCount(c, rx0, ds[..|ds| - 1]);
      WrapUp(rx0.good + |Follow(c, rx0, ds[..|ds| - 1]).log|);
    }
  }

  /** The highest nonce of a log, or the starting one. */
  function Highest(start: int, log: seq<int>): int {
    if log == [] then start else Max(Highest(start, log[..|log| - 1]), log[|log| - 1])
  }

  /** How many entries of a log do not exceed everything before them. */
  function Overtaken(start: int, log: seq<int>): nat {
    if log == [] then 0
    else
      var front, n := log[..|log| - 1], log[|log| - 1];
      Overtaken(start, front) + if n <= Highest(start, front) then 1 else 0
  }

  /** The time of the last accepted datagram, if any. */
  function LastGood(c: Ocb.Cipher, rx0: Receiver, ds: seq<Delivery>): nat
    requires WellFormed(rx0)
  {
    if ds == [] then rx0.lastGood
    else
      var front, d := ds[..|ds| - 1], ds[|ds| - 1];
      if Commits(c, Run(c, rx0, front), d.datagram) then d.now else LastGood(c, rx0, front)
  }

  /** The receiver stands at the highest nonce accepted; the late counter counts those that others overtook. */
  lemma {:induction false} LateCount(c: Ocb.Cipher, rx0: Receiver, ds: seq<Delivery>)
    requires WellFormed(rx0)
    ensures var t := Follow(c, rx0, ds);
      && t.pos == Highest(rx0.nonce, t.log)
      && t.rx.late == Wrap32(rx0.late + Overtaken(rx0.nonce, t.log))
      && t.rx.lastGood == LastGood(c, rx0, ds)
      && t.rx.resync == rx0.resync
  {
    hide Step, Commits, Judge, Distance, Wrap32, Highest, Overtaken;
    if ds == [] {
      SmallWrap(rx0.late);
      NothingLogged(rx0.nonce);
    } else {
      var t, d := Follow(c, rx0, ds[..|ds| - 1]), ds[|ds| - 1];
      LateCount(c, rx0, ds[..|ds| - 1]);
      LateIsBehind(c, t.rx, d.datagram);
      LateStep(c, rx0, t, d);
    }
  }

  lemma {:induction false} NothingLogged(start: int)
    ensures Highest(start, []) == start && Overtaken(start, []) == 0
  {
  }

  lemma {:induction false} OneMore(start: int, log: seq<int>, n: int)
    ensures Highest(start, log + [n]) == Max(Highest(start, log), n)
    ensures Overtaken(start, log + [n]) == Overtaken(start, log) + if n <= Highest(start, log) then 1 else 0
  {
    assert (log + [n])[..|log|] == log;
  }

  lemma {:induction false} LateIsBehind(c: Ocb.Cipher, rx: Receiver, d: seq<byte>)
    requires WellFormed(rx)
    ensures Commits(c, rx, d) ==> Judge(rx, d[0]).late == (Distance(rx, d[0]) <= 0)
  {
    hide Judge, TagMatches, Distance, LowByte, Page, Wrap128;
    if Commits(c, rx, d) {
      JudgeByDistance(rx, d[0]);
    }
  }

  lemma {:induction false} LateStep(c: Ocb.Cipher, rx0: Receiver, t: Track, d: Delivery)
    requires WellFormed(t.rx) && t.pos == Highest(rx0.nonce, t.log)
    requires Commits(c, t.rx, d.datagram) ==> Judge(t.rx, d.datagram[0]).late == (Distance(t.rx, d.datagram[0]) <= 0)
    requires t.rx.late == Wrap32(rx0.late + Overtaken(rx0.nonce, t.log))
    ensures var u := Step(c, t, d);
      && u.pos == Highest(rx0.nonce, u.log)
      && u.rx.late == Wrap32(rx0.late + Overtaken(rx0.nonce, u.log))
      && u.rx.lastGood == (if Commits(c, t.rx, d.datagram) then d.now else t.rx.lastGood)
      && u.rx.resync == t.rx.resync
  {
    hide Judge, TagMatches, Distance, LowByte, Page, Wrap128, Wrap32, Highest, Overtaken;
    if Commits(c, t.rx, d.datagram) {
      OneMore(rx0.nonce, t.log, t.pos + Distance(t.rx, d.datagram[0]));
      WrapUp(rx0.late + Overtaken(rx0.nonce, t.log));
    }
  }

  lemma {:induction false} SmallWrap(x: u32)
    ensures Wrap32(x) == x
  {
  }

  lemma {:induction false} WrapUp(x: int)
    ensures Wrap32(Wrap32(x) + 1) == Wrap32(x + 1)
  {
  }

  ghost function Interval(a: int, b: int): (r: set<int>)
    requires a <= b
    ensures |r| == b - a
    ensures forall n :: n in r <==> a < n <= b
    decreases b - a
  {
    if a == b then {} else Interval(a, b - 1) + {b}
  }

  /** The nonces between the start and the receiver's position that were never accepted. */
  ghost function Missing(rx0: Receiver, t: Track): set<int>
    requires rx0.nonce <= t.pos
  {
    set n | n in Interval(rx0.nonce, t.pos) && n !in t.log
  }

  lemma {:induction false} DistinctSize(log: seq<int>)
    requires forall i, j :: 0 <= i < j < |log| ==> log[i] != log[j]
    ensures |set n | n in log| == |log|
  {
    if log != [] {
      var front, last := log[..|log| - 1], log[|log| - 1];
      DistinctSize(front);
      assert log == front + [last];
      assert (set n | n in log) == (set n | n in front) + {last};
    }
  }

  /** The nonces at or below the start that were accepted late. */
  ghost function Below(rx0: Receiver, t: Track): set<int> {
    set n | n in t.log && n <= rx0.nonce
  }

  lemma {:induction false} MissingSize(rx0: Receiver, t: Track)
    requires Inv(rx0, t)
    ensures |Missing(rx0, t)| - |Below(rx0, t)| == t.pos - rx0.nonce - |t.log|
    ensures |Below(rx0, t)| <= |t.log|
  {
    hide LowByte, Page, Wrap128;
    var all, seen, below := Interval(rx0.nonce, t.pos), (set n | n in t.log), Below(rx0, t);
    DistinctSize(t.log);
    assert below <= seen && seen - below <= all;
    assert Missing(rx0, t) == all - (seen - below);
  }

  /**
   * After every run the lost counter is the number of nonces passed over and not accepted, less the
   * late ones accepted at or below the start, modulo its width.
   */
  lemma {:induction false} LossAccount(c: Ocb.Cipher, rx0: Receiver, ds: seq<Delivery>)
    requires WellFormed(rx0)
    ensures var t := Follow(c, rx0, ds);
      && rx0.nonce <= t.pos
      && t.rx.lost == Wrap32(rx0.lost + |Missing(rx0, t)| - |Below(rx0, t)|)
      && t.rx.good == Wrap32(rx0.good + |t.log|)
  {
    hide Follow, Run;
    var t := Follow(c, rx0, ds);
    FollowKeepsInv(c, rx0, ds);
    MissingSize(rx0, t);
    GoodCount(c, rx0, ds);
    RunBalance(c, rx0, ds);
    NonceModulo(t.rx.good + t.rx.lost, t.pos);
    hide Inv, Wrap128, Missing, Below;
    SolveForLost(t.rx.good, t.rx.lost, t.pos, rx0, |t.log|);
  }

  lemma {:induction false} SolveForLost(good: u32, lost: u32, pos: int, rx0: Receiver, n: nat)
    requires good == Wrap32(rx0.good + n)
    requires Wrap32(good + lost - pos) == Wrap32(rx0.good + rx0.lost - rx0.nonce)
    ensures lost == Wrap32(rx0.lost + (pos - rx0.nonce - n))
  {
  }

  lemma {:induction false} LogLength(c: Ocb.Cipher, rx0: Receiver, ds: seq<Delivery>)
    requires WellFormed(rx0)
    ensures |Follow(c, rx0, ds).log| <= |ds|
  {
    hide Commits, After, Distance;
    if ds != [] {
      LogLength(c, rx0, ds[..|ds| - 1]);
    }
  }

  /** When every accepted nonce lies above the start, the lost counter never counts below zero. */
  lemma {:induction false} LossIsExact(c: Ocb.Cipher, rx0: Receiver, ds: seq<Delivery>)
    requires WellFormed(rx0)
    requires forall i :: 0 <= i < |Follow(c, rx0, ds).log| ==> Follow(c, rx0, ds).log[i] > rx0.nonce
    ensures var t := Follow(c, rx0, ds);
      && rx0.nonce <= t.pos
      && t.rx.lost == Wrap32(rx0.lost + |Missing(rx0, t)|)
      && t.rx.good == Wrap32(rx0.good + |t.log|)
  {
    hide Follow, Run, Missing;
    LossAccount(c, rx0, ds);
    assert Below(rx0, Follow(c, rx0, ds)) == {};
  }

  /** So it is exactly the number of nonces passed over if and only if no nonce at or below the start was accepted. */
  lemma {:induction false} LossIsExactIff(c: Ocb.Cipher, rx0: Receiver, ds: seq<Delivery>)
    requires WellFormed(rx0) && |ds| < TWO32
    ensures var t := Follow(c, rx0, ds);
      && rx0.nonce <= t.pos
      && (t.rx.lost == Wrap32(rx0.lost + |Missing(rx0, t)|) <==>
            forall i :: 0 <= i < |t.log| ==> t.log[i] > rx0.nonce)
  {
    hide Follow, Run, Missing;
    var t := Follow(c, rx0, ds);
    LossAccount(c, rx0, ds);
    LogLength(c, rx0, ds);
    FollowKeepsInv(c, rx0, ds);
    MissingSize(rx0, t);
    hide Inv;
    SameModulo(rx0.lost + |Missing(rx0, t)|, |Below(rx0, t)|);
    assert |Below(rx0, t)| == 0 <==> Below(rx0, t) == {};
    assert Below(rx0, t) == {} <==> forall i :: 0 <= i < |t.log| ==> t.log[i] > rx0.nonce by {
      forall i | 0 <= i < |t.log| && t.log[i] <= rx0.nonce
        ensures t.log[i] in Below(rx0, t)
      {
      }
    }
  }

  lemma {:induction false} SameModulo(a: int, b: int)
    requires 0 <= b < TWO32
    ensures Wrap32(a - b) == Wrap32(a) <==> b == 0
  {
  }
}
