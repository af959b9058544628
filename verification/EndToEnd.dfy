/** A sender and a receiver with the same key and nonce, over a lossy and reordering network. */
module EndToEnd {
  import opened Words
  import opened Wrappers
  import opened Crypt
  import opened CryptRuns
  import Ocb
  import Voice

  /** The arrival of packet number `number` of the stream, counting from one. */
  datatype Arrival = Arrival(number: nat, now: nat)

  /** Sender and receiver share the cipher, and every packet of the stream has a byte form. */
  ghost predicate Channel(c: Ocb.Cipher, dir: Voice.Direction, rx0: Receiver, ps: seq<Voice.VoicePacket>) {
    && Ocb.Inverse(c)
    && WellFormed(rx0)
    && forall k :: 0 <= k < |ps| ==> Voice.Encodable(ps[k]) && Voice.Travels(ps[k], dir)
  }

  predicate Numbered(ps: seq<Voice.VoicePacket>, arr: seq<Arrival>) {
    forall i :: 0 <= i < |arr| ==> 1 <= arr[i].number <= |ps|
  }

  /** The datagram of packet `k` of a stream whose sender starts from the receiver's nonce. */
  function Sent(c: Ocb.Cipher, rx0: Receiver, ps: seq<Voice.VoicePacket>, k: nat): seq<byte>
    requires 1 <= k <= |ps|
  {
    Seal(c, Wrap128(rx0.nonce + k), ps[k - 1])
  }

  /** What the network hands over. */
  function Wire(c: Ocb.Cipher, rx0: Receiver, ps: seq<Voice.VoicePacket>, arr: seq<Arrival>): (ds: seq<Delivery>)
    requires Numbered(ps, arr)
    ensures |ds| == |arr|
  {
    if arr == [] then [] else
      var last := arr[|arr| - 1];
      Wire(c, rx0, ps, arr[..|arr| - 1]) + [Delivery(Sent(c, rx0, ps, last.number), last.now)]
  }

  /** The highest packet number among the arrivals, zero if there are none. */
  function High(arr: seq<Arrival>): nat {
    if arr == [] then 0 else Max(High(arr[..|arr| - 1]), arr[|arr| - 1].number)
  }

  // ----- One datagram -----

  lemma {:induction false} SealParts(c: Ocb.Cipher, n: u128, p: Voice.VoicePacket)
    ensures var d, body := Seal(c, n, p), Ocb.Encrypt(c, n, Voice.Encode(p));
      d[0] == LowByte(n) && d[1..4] == TagBytes(body.tag) && d[4..] == body.bytes
  {
    hide Ocb.Encrypt, Voice.Encode, LowByte, TagBytes;
  }

  /** A sealed packet whose nonce the receiver rebuilds comes out as it was sent. */
  lemma {:induction false} SealedIsOpened(c: Ocb.Cipher, dir: Voice.Direction, rx: Receiver, n: u128, p: Voice.VoicePacket)
    requires Ocb.Inverse(c) && WellFormed(rx) && Voice.Encodable(p) && Voice.Travels(p, dir)
    requires Judge(rx, LowByte(n)).Accept? && Judge(rx, LowByte(n)).nonce == n
    ensures Commits(c, rx, Seal(c, n, p))
    ensures Outcome(c, dir, rx, Seal(c, n, p)) == Ok(p)
  {
    hide Ocb.Inverse, Ocb.Encrypt, Ocb.Decrypt, Voice.Encode, Voice.Decode, Judge, LowByte, TagBytes, Seal;
    SealParts(c, n, p);
    Ocb.ModeRoundTrip(c, n, Voice.Encode(p));
    Voice.RoundTrip(p, dir);
  }

  lemma {:induction false} SignedNear(j: int, k: int, base: int)
    requires -128 <= k - j < 128
    ensures Signed(LowByte(base + k) - LowByte(base + j)) == k - j
  {
    var a, b := base + k, base + j;
    AddMultiple(a / 0x100 - b / 0x100, LowByte(a) - LowByte(b));
    assert 0x100 * (a / 0x100 - b / 0x100) + (LowByte(a) - LowByte(b)) == k - j;
  }

  /** The receiver sees the true distance of any packet within half the byte range. */
  lemma {:induction false} DistanceOfSent(rx: Receiver, base: int, j: int, k: int)
    requires rx.nonce == Wrap128(base + j) && -128 <= k - j < 128
    ensures Distance(rx, LowByte(Wrap128(base + k))) == k - j
    ensures Wrap128(rx.nonce + (k - j)) == Wrap128(base + k)
  {
    WrapKeepsLowBytes(base + j);
    WrapKeepsLowBytes(base + k);
    WrapSum(base + j, k - j);
    hide Wrap128, LowByte, Signed;
    SignedNear(j, k, base);
  }

  lemma {:induction false} Refused(c: Ocb.Cipher, dir: Voice.Direction, rx: Receiver, d: seq<byte>)
    requires WellFormed(rx) && |d| >= 4 && Judge(rx, d[0]).Refuse?
    ensures !Commits(c, rx, d) && Outcome(c, dir, rx, d) == Err(Judge(rx, d[0]).error)
  {
  }

  /** The verdict on packet `k` when the receiver stands at packet `j`. */
  lemma {:induction false} JudgeSent(rx: Receiver, base: int, j: int, k: int)
    requires WellFormed(rx)
    requires rx.nonce == Wrap128(base + j) && -128 <= k - j < 128
    ensures var n := Wrap128(base + k);
      var seen := rx.history[LowByte(n)] == Page(n);
      && (k > j || (k > j - 30 && !seen) ==> Judge(rx, LowByte(n)).Accept? && Judge(rx, LowByte(n)).nonce == n)
      && (j - 30 < k <= j && seen ==> Judge(rx, LowByte(n)) == Refuse(Repeat))
      && (k <= j - 30 ==> Judge(rx, LowByte(n)) == Refuse(Late))
  {
    hide Judge, LowByte, Page, Wrap128, Distance;
    DistanceOfSent(rx, base, j, k);
    JudgeByDistance(rx, LowByte(Wrap128(base + k)));
  }

  /**
   * What happens to packet `k` when the receiver stands at packet `j`: ahead by up to 127 it is
   * delivered; behind by fewer than 30 it is delivered unless its slot holds its page; behind by
   * 30 to 128 it is refused as late. A refusal changes nothing.
   */
  lemma {:induction false} DeliverOne(
    c: Ocb.Cipher, dir: Voice.Direction, rx: Receiver, base: int, j: int, k: int, p: Voice.VoicePacket)
    requires Ocb.Inverse(c) && WellFormed(rx) && Voice.Encodable(p) && Voice.Travels(p, dir)
    requires rx.nonce == Wrap128(base + j) && -128 <= k - j < 128
    ensures var n := Wrap128(base + k);
      var d := Seal(c, n, p);
      var seen := rx.history[LowByte(n)] == Page(n);
      && d[0] == LowByte(n)
      && (Commits(c, rx, d) <==> k > j || (k > j - 30 && !seen))
      && Outcome(c, dir, rx, d) ==
           (if k <= j - 30 then Err(Late) else if k <= j && seen then Err(Repeat) else Ok(p))
  {
    hide Judge, LowByte, Page, Wrap128, Seal, Commits, Outcome, Ocb.Inverse, Voice.Encodable, Voice.Travels, TagBytes,
      Ocb.Encrypt, Voice.Encode;
    var n := Wrap128(base + k);
    SealParts(c, n, p);
    JudgeSent(rx, base, j, k);
    if Judge(rx, LowByte(n)).Accept? {
      SealedIsOpened(c, dir, rx, n, p);
    } else {
      Refused(c, dir, rx, Seal(c, n, p));
    }
  }

  // ----- Runs -----

  lemma {:induction false} WireAt(c: Ocb.Cipher, rx0: Receiver, ps: seq<Voice.VoicePacket>, arr: seq<Arrival>, i: nat)
    requires Numbered(ps, arr) && i < |arr|
    ensures Numbered(ps, arr[..i])
    ensures var ds := Wire(c, rx0, ps, arr);
      ds[..i] == Wire(c, rx0, ps, arr[..i]) && ds[i] == Delivery(Sent(c, rx0, ps, arr[i].number), arr[i].now)
  {
    hide Sent;
    var front := arr[..|arr| - 1];
    var ds := Wire(c, rx0, ps, arr);
    assert ds[..|front|] == Wire(c, rx0, ps, front);
    if i < |front| {
      WireAt(c, rx0, ps, front, i);
      assert front[..i] == arr[..i];
      assert ds[..i] == ds[..|front|][..i];
    }
  }

  /** Each arrival is ahead of all before it, by at most 127. */
  predicate Forward(arr: seq<Arrival>) {
    forall i :: 0 <= i < |arr| ==> 0 < arr[i].number - High(arr[..i]) <= 127
  }

  /** Each arrival is at most 127 ahead of, or 128 behind, the highest so far: one byte tells it apart. */
  predicate InWindow(arr: seq<Arrival>) {
    forall i :: 0 <= i < |arr| ==> -128 <= arr[i].number - High(arr[..i]) <= 127
  }

  /** Packet `k` is not too late after the given arrivals. */
  predicate Timely(arr: seq<Arrival>, k: nat) {
    k > High(arr) - 30
  }

  predicate AllTimely(arr: seq<Arrival>) {
    forall i :: 0 <= i < |arr| ==> Timely(arr[..i], arr[i].number)
  }

  lemma {:induction false} WindowPrefix(arr: seq<Arrival>, n: nat)
    requires InWindow(arr) && n <= |arr|
    ensures InWindow(arr[..n])
  {
    forall i | 0 <= i < n
      ensures -128 <= arr[..n][i].number - High(arr[..n][..i]) <= 127
    {
      assert arr[..n][..i] == arr[..i];
    }
  }

  lemma {:induction false} FollowSnoc(c: Ocb.Cipher, rx0: Receiver, ds: seq<Delivery>, d: Delivery)
    requires WellFormed(rx0)
    ensures Follow(c, rx0, ds + [d]) == Step(c, Follow(c, rx0, ds), d)
  {
    hide Step, Run;
    assert (ds + [d])[..|ds|] == ds;
  }

  /** A packet in the window moves the receiver to it if it is ahead, and nowhere else. */
  lemma {:induction false} StepToHighest(
    c: Ocb.Cipher, dir: Voice.Direction, rx0: Receiver, t: Track, j: nat, k: nat, p: Voice.VoicePacket, now: nat)
    requires Ocb.Inverse(c) && WellFormed(rx0) && WellFormed(t.rx) && Voice.Encodable(p) && Voice.Travels(p, dir)
    requires t.pos == rx0.nonce + j && t.rx.nonce == Wrap128(t.pos) && -128 <= k - j <= 127
    ensures Step(c, t, Delivery(Seal(c, Wrap128(rx0.nonce + k), p), now)).pos == rx0.nonce + Max(j, k)
  {
    hide Commits, After, Outcome, Wrap128, Seal, LowByte, Page, Distance, Ocb.Inverse, Voice.Encodable, Voice.Travels;
    DeliverOne(c, dir, t.rx, rx0.nonce, j, k, p);
    DistanceOfSent(t.rx, rx0.nonce, j, k);
  }

  /** After any arrivals in the window the receiver stands at the highest of them. */
  lemma {:induction false} StandsAtHighest(
    c: Ocb.Cipher, dir: Voice.Direction, rx0: Receiver, ps: seq<Voice.VoicePacket>, arr: seq<Arrival>)
    requires Channel(c, dir, rx0, ps) && Numbered(ps, arr) && InWindow(arr)
    ensures Follow(c, rx0, Wire(c, rx0, ps, arr)).pos == rx0.nonce + High(arr)
  {
    hide Step, Wrap128, Seal, Ocb.Inverse, Voice.Encodable, Voice.Travels, Inv, Run;
    if arr != [] {
      var front, last := arr[..|arr| - 1], arr[|arr| - 1];
      WindowPrefix(arr, |front|);
      StandsAtHighest(c, dir, rx0, ps, front);
      hide Follow;
      var ds, k := Wire(c, rx0, ps, front), last.number;
      StreamInv(c, rx0, ds);
      StepToHighest(c, dir, rx0, Follow(c, rx0, ds), High(front), k, ps[k - 1], last.now);
      FollowSnoc(c, rx0, ds, Delivery(Sent(c, rx0, ps, k), last.now));
    }
  }

  lemma {:induction false} StreamInv(c: Ocb.Cipher, rx0: Receiver, ds: seq<Delivery>)
    requires WellFormed(rx0)
    ensures var t := Follow(c, rx0, ds);
      Inv(rx0, t) && WellFormed(t.rx) && t.rx.nonce == Wrap128(t.pos)
  {
    FollowKeepsInv(c, rx0, ds);
  }

  /**
   * Any order, with repeats and losses: every arrival in the window comes out as the packet sent,
   * is too late, or is refused as a repeat. One accepted before is always refused; a new one is
   * refused as a repeat exactly when it is behind and its slot already holds its page.
   */
  lemma {:induction false} ReorderedDelivery(
    c: Ocb.Cipher, dir: Voice.Direction, rx0: Receiver, ps: seq<Voice.VoicePacket>, arr: seq<Arrival>, i: nat)
    requires Channel(c, dir, rx0, ps) && Numbered(ps, arr) && InWindow(arr) && i < |arr|
    ensures var ds := Wire(c, rx0, ps, arr);
      var t := Follow(c, rx0, ds[..i]);
      var n := rx0.nonce + arr[i].number;
      var out := Outcome(c, dir, Run(c, rx0, ds[..i]), ds[i].datagram);
      var timely := n > t.pos - 30;
      var seen := n <= t.pos && SlotByte(rx0, t.log, LowByte(n)) == Page(n);
      && t.pos == rx0.nonce + High(arr[..i])
      && out == (if !timely then Err(Late) else if seen then Err(Repeat) else Ok(ps[arr[i].number - 1]))
      && (timely && n in t.log ==> seen)
      && (Commits(c, t.rx, ds[i].datagram) <==> timely && !seen)
  {
    hide Commits, After, Wrap128, Seal, LowByte, Page, Ocb.Inverse, Voice.Encodable, Voice.Travels, Inv, SlotByte, Follow, Run,
      Outcome, Wire;
    var ds, k := Wire(c, rx0, ps, arr), arr[i].number;
    WireAt(c, rx0, ps, arr, i);
    WindowPrefix(arr, i);
    StandsAtHighest(c, dir, rx0, ps, arr[..i]);
    var t := Follow(c, rx0, ds[..i]);
    StreamInv(c, rx0, ds[..i]);
    DeliverOne(c, dir, t.rx, rx0.nonce, High(arr[..i]), k, ps[k - 1]);
    WrapKeepsLowBytes(rx0.nonce + k);
    HistoryIsLastWriter(c, rx0, ds[..i], LowByte(rx0.nonce + k));
    if rx0.nonce + k in t.log && rx0.nonce + k > t.pos - 30 {
      LoggedIsRefused(rx0, t, rx0.nonce + k);
    }
  }

  lemma {:induction false} LoggedIsRefused(rx0: Receiver, t: Track, n: int)
    requires Inv(rx0, t) && n in t.log && n > t.pos - 30
    ensures n <= t.pos && t.rx.history[LowByte(n)] == Page(n)
  {
    hide LowByte, Page;
  }

  /**
   * Losses only: if arrivals are in order and at most 127 apart, every one of them comes out as
   * the packet sent and leaves the receiver at its nonce.
   */
  lemma {:induction false} InOrderDelivery(
    c: Ocb.Cipher, dir: Voice.Direction, rx0: Receiver, ps: seq<Voice.VoicePacket>, arr: seq<Arrival>, i: nat)
    requires Channel(c, dir, rx0, ps) && Numbered(ps, arr) && Forward(arr) && i < |arr|
    ensures var ds := Wire(c, rx0, ps, arr);
      && Outcome(c, dir, Run(c, rx0, ds[..i]), ds[i].datagram) == Ok(ps[arr[i].number - 1])
      && Run(c, rx0, ds[..i + 1]).nonce == Wrap128(rx0.nonce + arr[i].number)
  {
    hide Commits, After, Wrap128, LowByte, Page, Channel, Inv, SlotByte, Follow, Run, Outcome, Wire;
    var ds := Wire(c, rx0, ps, arr);
    ReorderedDelivery(c, dir, rx0, ps, arr, i);
    WindowPrefix(arr, i + 1);
    StandsAtHighest(c, dir, rx0, ps, arr[..i + 1]);
    StreamInv(c, rx0, ds[..i + 1]) by { ChannelIsWellFormed(c, dir, rx0, ps); }
    WirePrefix(c, rx0, ps, arr, i + 1);
    assert arr[..i + 1][..i] == arr[..i];
  }

  lemma {:induction false} ChannelIsWellFormed(c: Ocb.Cipher, dir: Voice.Direction, rx0: Receiver, ps: seq<Voice.VoicePacket>)
    requires Channel(c, dir, rx0, ps)
    ensures WellFormed(rx0)
  {
  }

  lemma {:induction false} WirePrefix(c: Ocb.Cipher, rx0: Receiver, ps: seq<Voice.VoicePacket>, arr: seq<Arrival>, n: nat)
    requires Numbered(ps, arr) && n <= |arr|
    ensures Wire(c, rx0, ps, arr)[..n] == Wire(c, rx0, ps, arr[..n])
  {
    hide Wire;
    if n < |arr| {
      WireAt(c, rx0, ps, arr, n);
    } else {
      assert arr[..n] == arr;
      assert Wire(c, rx0, ps, arr)[..n] == Wire(c, rx0, ps, arr);
    }
  }

  // ----- What becomes of each arrival -----

  /** Before the stream starts, the slot of packet `k` does not hold the page of that packet. */
  predicate CleanSlot(rx0: Receiver, k: nat)
    requires WellFormed(rx0)
  {
    rx0.history[LowByte(rx0.nonce + k)] != Page(rx0.nonce + k)
  }

  /** The last timely arrival that shares its slot with packet `k`. */
  function LastLike(arr: seq<Arrival>, k: nat): Option<nat> {
    if arr == [] then None
    else
      var front, m := arr[..|arr| - 1], arr[|arr| - 1].number;
      if (k - m) % 0x100 == 0 && Timely(front, m) then Some(m) else LastLike(front, k)
  }

  /** Packet `k` is behind, and the last arrival in its slot, or what the slot held at the start, has its page. */
  predicate Repeats(rx0: Receiver, arr: seq<Arrival>, k: nat)
    requires WellFormed(rx0)
  {
    && k <= High(arr)
    && match LastLike(arr, k)
       case None => !CleanSlot(rx0, k)
       case Some(m) => (k - m) % 0x1_0000 == 0
  }

  /** What the caller is told of packet `k` after the given arrivals. */
  function Fate(rx0: Receiver, ps: seq<Voice.VoicePacket>, arr: seq<Arrival>, k: nat): Result<Voice.VoicePacket>
    requires WellFormed(rx0) && 1 <= k <= |ps|
  {
    if !Timely(arr, k) then Err(Late) else if Repeats(rx0, arr, k) then Err(Repeat) else Ok(ps[k - 1])
  }

  /** What the slot of packet `k` holds: the page of the last timely arrival in it. */
  function SlotAfter(rx0: Receiver, arr: seq<Arrival>, k: nat): byte
    requires WellFormed(rx0)
  {
    match LastLike(arr, k)
    case None => rx0.history[LowByte(rx0.nonce + k)]
    case Some(m) => Page(rx0.nonce + m)
  }

  /** Packets that share a slot are a multiple of 256 apart. */
  lemma {:induction false} SharedSlot(start: int, m: int, k: int)
    ensures LowByte(start + m) == LowByte(start + k) <==> (k - m) % 0x100 == 0
  {
    var q, e := (k - m) / 0x100, (k - m) % 0x100;
    assert start + k == 0x100 * q + (start + m + e);
    AddMultiple(q, start + m + e);
  }

  /** Packets that share a slot have the same page exactly if they are a multiple of 65536 apart. */
  lemma {:induction false} SharedPage(start: int, m: int, k: int)
    requires (k - m) % 0x100 == 0
    ensures Page(start + m) == Page(start + k) <==> (k - m) % 0x1_0000 == 0
  {
    var q := (k - m) / 0x100;
    assert start + k == 0x100 * q + (start + m);
    AddMultiple(q, start + m);
    PageDistance((start + m) / 0x100, q);
    assert k - m == 0x100 * q;
    assert (0x100 * q) % 0x1_0000 == 0x100 * (q % 0x100) by { ScaledRemainder(q); }
  }

  lemma {:induction false} PageDistance(a: int, q: int)
    ensures a % 0x100 == (a + q) % 0x100 <==> q % 0x100 == 0
  {
    var r, e := q / 0x100, q % 0x100;
    assert a + q == 0x100 * r + (a + e);
    AddMultiple(r, a + e);
  }

  lemma {:induction false} ScaledRemainder(q: int)
    ensures (0x100 * q) % 0x1_0000 == 0x100 * (q % 0x100)
  {
    assert 0x100 * q == 0x1_0000 * (q / 0x100) + 0x100 * (q % 0x100);
  }

  /** A timely packet leaves its page in its slot, whether it is accepted or refused; a late one changes nothing. */
  lemma {:induction false} SlotStep(
    c: Ocb.Cipher, dir: Voice.Direction, rx0: Receiver, t: Track, j: nat, k: nat, p: Voice.VoicePacket, now: nat)
    requires Ocb.Inverse(c) && Inv(rx0, t) && Voice.Encodable(p) && Voice.Travels(p, dir)
    requires t.pos == rx0.nonce + j && -128 <= k - j <= 127
    ensures var n := rx0.nonce + k;
      Step(c, t, Delivery(Seal(c, Wrap128(n), p), now)).rx.history ==
        if k > j - 30 then t.rx.history[LowByte(n) := Page(n)] else t.rx.history
  {
    hide Judge, TagMatches, Wrap128, Wrap32, Seal, LowByte, Page, Distance, Ocb.Inverse, Voice.Encodable, Voice.Travels, Outcome;
    var n := rx0.nonce + k;
    var d := Seal(c, Wrap128(n), p);
    DeliverOne(c, dir, t.rx, rx0.nonce, j, k, p);
    DistanceOfSent(t.rx, rx0.nonce, j, k);
    WrapKeepsLowBytes(n);
    if Commits(c, t.rx, d) {
      AcceptedNonce(rx0, t, d[0]);
    } else if k > j - 30 {
      assert t.rx.history[LowByte(n) := Page(n)] == t.rx.history;
    }
  }

  /** After any arrivals in the window every slot holds the page of the last timely arrival in it. */
  lemma {:induction false} SlotHolds(
    c: Ocb.Cipher, dir: Voice.Direction, rx0: Receiver, ps: seq<Voice.VoicePacket>, arr: seq<Arrival>, k: nat)
    requires Channel(c, dir, rx0, ps) && Numbered(ps, arr) && InWindow(arr)
    ensures Follow(c, rx0, Wire(c, rx0, ps, arr)).rx.history[LowByte(rx0.nonce + k)] == SlotAfter(rx0, arr, k)
  {
    hide Step, Wrap128, Seal, LowByte, Page, Ocb.Inverse, Voice.Encodable, Voice.Travels, Run, High, InWindow;
    if arr != [] {
      var front, last := arr[..|arr| - 1], arr[|arr| - 1];
      WindowPrefix(arr, |front|);
      SlotHolds(c, dir, rx0, ps, front, k);
      StandsAtHighest(c, dir, rx0, ps, front);
      InWindowAt(arr, |front|);
      hide Follow;
      var ds, m := Wire(c, rx0, ps, front), last.number;
      StreamInv(c, rx0, ds);
      hide Inv;
      SlotStep(c, dir, rx0, Follow(c, rx0, ds), High(front), m, ps[m - 1], last.now);
      FollowSnoc(c, rx0, ds, Delivery(Sent(c, rx0, ps, m), last.now));
      SharedSlot(rx0.nonce, m, k);
    }
  }

  lemma {:induction false} InWindowAt(arr: seq<Arrival>, i: nat)
    requires InWindow(arr) && i < |arr|
    ensures -128 <= arr[i].number - High(arr[..i]) <= 127
  {
    hide High;
  }

  /** The slot test on packet `k`, in terms of the numbers that arrived. */
  lemma {:induction false} SlotTest(rx0: Receiver, arr: seq<Arrival>, k: nat)
    requires WellFormed(rx0)
    ensures Repeats(rx0, arr, k) <==> k <= High(arr) && SlotAfter(rx0, arr, k) == Page(rx0.nonce + k)
  {
    hide LowByte, Page, High;
    LikeArrived(arr, k);
    if LastLike(arr, k).Some? {
      SharedPage(rx0.nonce, LastLike(arr, k).value, k);
    }
  }

  predicate Arrived(arr: seq<Arrival>, k: nat) {
    exists i :: 0 <= i < |arr| && arr[i].number == k
  }

  lemma {:induction false} LikeArrived(arr: seq<Arrival>, k: nat)
    ensures LastLike(arr, k).Some? ==> Arrived(arr, LastLike(arr, k).value) && (k - LastLike(arr, k).value) % 0x100 == 0
  {
    hide High, Arrived;
    if arr != [] {
      LikeArrived(arr[..|arr| - 1], k);
      ArrivedSnoc(arr);
    }
  }

  lemma {:induction false} ArrivedSnoc(arr: seq<Arrival>)
    requires arr != []
    ensures forall k :: Arrived(arr, k) <==> Arrived(arr[..|arr| - 1], k) || k == arr[|arr| - 1].number
  {
    var front, last := arr[..|arr| - 1], arr[|arr| - 1];
    forall k
      ensures Arrived(arr, k) <==> Arrived(front, k) || k == last.number
    {
      if Arrived(front, k) {
        var i :| 0 <= i < |front| && front[i].number == k;
        assert arr[i].number == k;
      }
    }
  }

  /**
   * What becomes of each arrival, for every receiver, every stream and every pattern of loss,
   * reordering and duplication in the window: too late by 30 or more, it is refused as late; behind,
   * with its page already in its slot, it is refused as a repeat; otherwise it comes out as sent.
   */
  lemma {:induction false} DeliveredIff(
    c: Ocb.Cipher, dir: Voice.Direction, rx0: Receiver, ps: seq<Voice.VoicePacket>, arr: seq<Arrival>, i: nat)
    requires Channel(c, dir, rx0, ps) && Numbered(ps, arr) && InWindow(arr) && i < |arr|
    ensures var ds := Wire(c, rx0, ps, arr);
      && Outcome(c, dir, Run(c, rx0, ds[..i]), ds[i].datagram) == Fate(rx0, ps, arr[..i], arr[i].number)
      && (Commits(c, Run(c, rx0, ds[..i]), ds[i].datagram) <==> Fate(rx0, ps, arr[..i], arr[i].number).Ok?)
  {
    hide Wrap128, Seal, Commits, LowByte, Page, Channel, Inv, SlotByte, Outcome, Wire, InWindow, Run, Repeats, SlotAfter, High;
    var front, k := arr[..i], arr[i].number;
    var ds := Wire(c, rx0, ps, arr);
    ChannelIsWellFormed(c, dir, rx0, ps);
    WireAt(c, rx0, ps, arr, i);
    WindowPrefix(arr, i);
    ReorderedDelivery(c, dir, rx0, ps, arr, i);
    SlotHolds(c, dir, rx0, ps, front, k);
    HistoryIsLastWriter(c, rx0, ds[..i], LowByte(rx0.nonce + k));
    SlotTest(rx0, front, k);
  }

  // ----- What is accepted -----

  /** Some copy of packet `k` among the arrivals was delivered. */
  predicate Delivered(rx0: Receiver, ps: seq<Voice.VoicePacket>, arr: seq<Arrival>, k: nat)
    requires WellFormed(rx0) && Numbered(ps, arr)
  {
    arr != [] &&
    (var front, m := arr[..|arr| - 1], arr[|arr| - 1].number;
     Delivered(rx0, ps, front, k) || (m == k && Fate(rx0, ps, front, m).Ok?))
  }

  /** The log holds exactly the packets of which some copy was delivered. */
  ghost predicate LogHolds(rx0: Receiver, ps: seq<Voice.VoicePacket>, log: seq<int>, arr: seq<Arrival>)
    requires WellFormed(rx0) && Numbered(ps, arr)
  {
    && (forall i :: 0 <= i < |log| ==> rx0.nonce < log[i] <= rx0.nonce + |ps|)
    && (forall k: nat :: rx0.nonce + k in log <==> Delivered(rx0, ps, arr, k))
  }

  lemma {:induction false} LogExtends(
    rx0: Receiver, ps: seq<Voice.VoicePacket>, log: seq<int>, log': seq<int>, arr: seq<Arrival>)
    requires WellFormed(rx0) && Numbered(ps, arr) && arr != []
    requires var front, m := arr[..|arr| - 1], arr[|arr| - 1].number;
      && LogHolds(rx0, ps, log, front)
      && log' == if Fate(rx0, ps, front, m).Ok? then log + [rx0.nonce + m] else log
    ensures LogHolds(rx0, ps, log', arr)
  {
    hide Fate;
    var front, m := arr[..|arr| - 1], arr[|arr| - 1].number;
    forall k: nat
      ensures rx0.nonce + k in log' <==> Delivered(rx0, ps, arr, k)
    {
      assert rx0.nonce + k in log <==> Delivered(rx0, ps, front, k);
    }
  }

  /** After any arrivals in the window the accepted nonces are those of the packets delivered. */
  lemma {:induction false} LogIsArrivals(
    c: Ocb.Cipher, dir: Voice.Direction, rx0: Receiver, ps: seq<Voice.VoicePacket>, arr: seq<Arrival>)
    requires Channel(c, dir, rx0, ps) && Numbered(ps, arr) && InWindow(arr)
    ensures WellFormed(rx0) && LogHolds(rx0, ps, Follow(c, rx0, Wire(c, rx0, ps, arr)).log, arr)
  {
    hide Wrap128, Seal, Commits, After, Distance, LowByte, Page, Channel, Inv, Outcome, Follow, Wire, InWindow,
      Run, High, Fate, LogHolds;
    var i := |arr| - 1;
    ChannelIsWellFormed(c, dir, rx0, ps);
    if arr == [] {
      EmptyStream(c, rx0, ps);
    } else {
      var front, last := arr[..i], arr[i];
      var ds := Wire(c, rx0, ps, arr);
      WireAt(c, rx0, ps, arr, i);
      WindowPrefix(arr, i);
      LogIsArrivals(c, dir, rx0, ps, front);
      StandsAtHighest(c, dir, rx0, ps, front);
      DeliveredIff(c, dir, rx0, ps, arr, i);
      StreamInv(c, rx0, ds[..i]);
      var t := Follow(c, rx0, ds[..i]);
      InWindowAt(arr, i);
      assert ds == ds[..i] + [ds[i]];
      FollowSnoc(c, rx0, ds[..i], ds[i]);
      LoggedNumber(c, rx0, t, High(front), last.number, ps[last.number - 1], last.now);
      LogExtends(rx0, ps, t.log, Follow(c, rx0, ds).log, arr);
    }
  }

  lemma {:induction false} EmptyStream(c: Ocb.Cipher, rx0: Receiver, ps: seq<Voice.VoicePacket>)
    requires WellFormed(rx0)
    ensures Follow(c, rx0, Wire(c, rx0, ps, [])).log == []
    ensures LogHolds(rx0, ps, [], [])
  {
  }

  lemma {:induction false} LoggedNumber(
    c: Ocb.Cipher, rx0: Receiver, t: Track, j: nat, k: nat, p: Voice.VoicePacket, now: nat)
    requires WellFormed(t.rx) && t.rx.nonce == Wrap128(t.pos) && t.pos == rx0.nonce + j && -128 <= k - j <= 127
    ensures var d := Delivery(Seal(c, Wrap128(rx0.nonce + k), p), now);
      Step(c, t, d).log == if Commits(c, t.rx, d.datagram) then t.log + [rx0.nonce + k] else t.log
  {
    hide Wrap128, Seal, Commits, After, Distance, LowByte, TagBytes, Ocb.Encrypt, Voice.Encode;
    DistanceOfSent(t.rx, rx0.nonce, j, k);
    SealParts(c, Wrap128(rx0.nonce + k), p);
  }

  // ----- From a reset -----

  lemma {:induction false} CleanAfterReset(now: nat, k: nat)
    ensures CleanSlot(Fresh(now), k) <==> k / 0x100 % 0x100 != 0
  {
    assert (TWO127 + k) / 0x100 == 0x100 * (TWO127 / 0x1_0000) + k / 0x100;
    AddMultiple(TWO127 / 0x1_0000, k / 0x100);
  }

  /** The fate of packet `k` of a stream that begins at a reset, in terms of arrival numbers alone. */
  function FateFromReset(ps: seq<Voice.VoicePacket>, arr: seq<Arrival>, k: nat): Result<Voice.VoicePacket>
    requires 1 <= k <= |ps|
  {
    if k <= High(arr) - 30 then Err(Late)
    else if k > High(arr) then Ok(ps[k - 1])
    else
      match LastLike(arr, k)
      case None => if k / 0x100 % 0x100 == 0 then Err(Repeat) else Ok(ps[k - 1])
      case Some(m) => if (k - m) % 0x1_0000 == 0 then Err(Repeat) else Ok(ps[k - 1])
  }

  /** The same from a reset, which every receiver starts with, for streams of every length. */
  lemma {:induction false} DeliveredFromReset(
    c: Ocb.Cipher, dir: Voice.Direction, now: nat, ps: seq<Voice.VoicePacket>, arr: seq<Arrival>, i: nat)
    requires Channel(c, dir, Fresh(now), ps) && Numbered(ps, arr) && InWindow(arr) && i < |arr|
    ensures var ds := Wire(c, Fresh(now), ps, arr);
      Outcome(c, dir, Run(c, Fresh(now), ds[..i]), ds[i].datagram) == FateFromReset(ps, arr[..i], arr[i].number)
  {
    hide Seal, CleanSlot, Channel, Outcome, Wire, InWindow, Run, High, Fresh, LastLike;
    ChannelIsWellFormed(c, dir, Fresh(now), ps);
    DeliveredIff(c, dir, Fresh(now), ps, arr, i);
    CleanAfterReset(now, arr[i].number);
  }

  // ----- Copies, and streams of fewer than 65536 packets -----

  lemma {:induction false} ArrivedBelowHigh(arr: seq<Arrival>, k: nat)
    requires Arrived(arr, k)
    ensures k <= High(arr)
  {
    var i :| 0 <= i < |arr| && arr[i].number == k;
    if i < |arr| - 1 {
      assert arr[..|arr| - 1][i].number == k;
      ArrivedBelowHigh(arr[..|arr| - 1], k);
    }
  }

  lemma {:induction false} TimelyPrefix(arr: seq<Arrival>)
    requires AllTimely(arr) && arr != []
    ensures AllTimely(arr[..|arr| - 1]) && Timely(arr[..|arr| - 1], arr[|arr| - 1].number)
  {
    hide Timely;
    var front := arr[..|arr| - 1];
    forall i | 0 <= i < |front|
      ensures Timely(front[..i], front[i].number)
    {
      assert front[..i] == arr[..i];
    }
  }

  /** If nothing comes too late, no packet follows a later one in its slot. */
  lemma {:induction false} NewestLike(arr: seq<Arrival>, k: nat, n: nat)
    requires AllTimely(arr) && Arrived(arr, n) && (k - n) % 0x100 == 0
    ensures LastLike(arr, k).Some? && LastLike(arr, k).value >= n
  {
    hide High, Arrived, AllTimely;
    ArrivedSomething(arr, n);
    var front, m := arr[..|arr| - 1], arr[|arr| - 1].number;
    TimelyPrefix(arr);
    ArrivedSnoc(arr);
    if Arrived(front, n) {
      NewestLike(front, k, n);
      ArrivedBelowHigh(front, n);
      if (k - m) % 0x100 == 0 {
        OneSlotApart(m, n, k, High(front));
      }
    }
  }

  lemma {:induction false} ArrivedSomething(arr: seq<Arrival>, n: nat)
    requires Arrived(arr, n)
    ensures arr != []
  {
  }

  lemma {:induction false} OneSlotApart(m: int, n: int, k: int, high: int)
    requires (k - m) % 0x100 == 0 && (k - n) % 0x100 == 0 && n <= high < m + 30
    ensures n <= m
  {
    assert (k - n) - (k - m) == 0x100 * ((k - n) / 0x100 - (k - m) / 0x100);
  }

  /** Every further copy of a packet is refused as a repeat, by every receiver, in streams of every length. */
  lemma {:induction false} CopiesRepeat(rx0: Receiver, ps: seq<Voice.VoicePacket>, arr: seq<Arrival>, k: nat)
    requires WellFormed(rx0) && 1 <= k <= |ps| && AllTimely(arr) && Timely(arr, k) && Arrived(arr, k)
    ensures Fate(rx0, ps, arr, k) == Err(Repeat)
  {
    hide Arrived, High, AllTimely, CleanSlot;
    ArrivedBelowHigh(arr, k);
    NewestLike(arr, k, k);
    LikeArrived(arr, k);
    var m := LastLike(arr, k).value;
    ArrivedBelowHigh(arr, m);
    OneSlotApart(k, m, k, High(arr));
  }

  /**
   * Exactly once, arrival by arrival: the first copy delivered and every other refused as a repeat,
   * if and only if it is not a first copy that is behind and finds its page in its slot.
   */
  lemma {:induction false} ExactlyOnceIff(
    c: Ocb.Cipher, dir: Voice.Direction, rx0: Receiver, ps: seq<Voice.VoicePacket>, arr: seq<Arrival>, i: nat)
    requires Channel(c, dir, rx0, ps) && Numbered(ps, arr) && InWindow(arr) && AllTimely(arr) && i < |arr|
    ensures var ds, front, k := Wire(c, rx0, ps, arr), arr[..i], arr[i].number;
      Outcome(c, dir, Run(c, rx0, ds[..i]), ds[i].datagram) ==
        (if Arrived(front, k) then Err(Repeat) else Ok(ps[k - 1])) <==>
      Arrived(front, k) || !Repeats(rx0, front, k)
  {
    hide Seal, CleanSlot, Channel, Outcome, Wire, InWindow, Run, High, Arrived, AllTimely, Repeats;
    var front, k := arr[..i], arr[i].number;
    ChannelIsWellFormed(c, dir, rx0, ps);
    DeliveredIff(c, dir, rx0, ps, arr, i);
    TimelyAt(arr, i);
    if Arrived(front, k) {
      CopiesRepeat(rx0, ps, front, k);
    }
  }

  lemma {:induction false} TimelyAt(arr: seq<Arrival>, i: nat)
    requires AllTimely(arr) && i < |arr|
    ensures AllTimely(arr[..i]) && Timely(arr[..i], arr[i].number)
  {
    hide Timely;
    var front := arr[..i];
    forall j | 0 <= j < i
      ensures Timely(front[..j], front[j].number)
    {
      assert front[..j] == arr[..j];
    }
  }

  /** The slot of packet `k` was clean at the start, or an earlier packet with the same slot has arrived. */
  ghost predicate Freed(rx0: Receiver, arr: seq<Arrival>, k: nat)
    requires WellFormed(rx0)
  {
    CleanSlot(rx0, k) || exists m :: 1 <= m < k && (k - m) % 0x100 == 0 && Arrived(arr, m)
  }

  /** In a short stream a repeat verdict on a first copy can only come from the slot at the start. */
  lemma {:induction false} ShortRepeats(rx0: Receiver, ps: seq<Voice.VoicePacket>, arr: seq<Arrival>, k: nat)
    requires WellFormed(rx0) && Numbered(ps, arr) && AllTimely(arr) && Timely(arr, k) && 1 <= k <= |ps| < 65536
    ensures Repeats(rx0, arr, k) <==> Arrived(arr, k) || (k <= High(arr) && !Freed(rx0, arr, k))
  {
    hide High, Arrived, AllTimely, CleanSlot;
    if Arrived(arr, k) {
      CopiesRepeat(rx0, ps, arr, k);
    } else if k <= High(arr) {
      LikeArrived(arr, k);
      match LastLike(arr, k)
      case None =>
        forall m | 1 <= m < k && (k - m) % 0x100 == 0
          ensures !Arrived(arr, m)
        {
          if Arrived(arr, m) {
            NewestLike(arr, k, m);
          }
        }
      case Some(m) =>
        ArrivedBelowHigh(arr, m);
        OneSlotApart(k, m, k, High(arr));
        ArrivedIsNumbered(ps, arr, m);
    }
  }

  lemma {:induction false} ArrivedIsNumbered(ps: seq<Voice.VoicePacket>, arr: seq<Arrival>, k: nat)
    requires Numbered(ps, arr) && Arrived(arr, k)
    ensures 1 <= k <= |ps|
  {
  }

  /** No slot holds, before the stream starts, the page of a packet of the stream. */
  ghost predicate CleanHistory(rx0: Receiver, count: nat)
    requires WellFormed(rx0)
  {
    forall k: nat :: 1 <= k <= count ==> CleanSlot(rx0, k)
  }

  /**
   * Exactly once: over a clean history every packet of a short stream comes out as sent the first
   * time it arrives, in whatever order, and is refused as a repeat every other time.
   */
  lemma {:induction false} ExactlyOnce(
    c: Ocb.Cipher, dir: Voice.Direction, rx0: Receiver, ps: seq<Voice.VoicePacket>, arr: seq<Arrival>, i: nat)
    requires Channel(c, dir, rx0, ps) && Numbered(ps, arr) && InWindow(arr) && AllTimely(arr) && i < |arr|
    requires CleanHistory(rx0, |ps|) && |ps| < 65536
    ensures var ds := Wire(c, rx0, ps, arr);
      Outcome(c, dir, Run(c, rx0, ds[..i]), ds[i].datagram) ==
        if Arrived(arr[..i], arr[i].number) then Err(Repeat) else Ok(ps[arr[i].number - 1])
  {
    hide Seal, CleanSlot, Channel, Outcome, Wire, InWindow, Run, High, Arrived, AllTimely, Repeats;
    ChannelIsWellFormed(c, dir, rx0, ps);
    ExactlyOnceIff(c, dir, rx0, ps, arr, i);
    WireAt(c, rx0, ps, arr, i);
    TimelyAt(arr, i);
    ShortRepeats(rx0, ps, arr[..i], arr[i].number);
    assert CleanSlot(rx0, arr[i].number);
  }

  /**
   * In a stream of fewer than 65536 packets that begins at a reset the first copy of a packet is
   * lost exactly when its number is below 256 and a later packet has overtaken it.
   */
  lemma {:induction false} ShortFromReset(
    c: Ocb.Cipher, dir: Voice.Direction, now: nat, ps: seq<Voice.VoicePacket>, arr: seq<Arrival>, i: nat)
    requires Channel(c, dir, Fresh(now), ps) && Numbered(ps, arr) && InWindow(arr) && AllTimely(arr)
    requires |ps| < 65536 && i < |arr|
    ensures var ds, k := Wire(c, Fresh(now), ps, arr), arr[i].number;
      Outcome(c, dir, Run(c, Fresh(now), ds[..i]), ds[i].datagram) ==
        if !Arrived(arr[..i], k) && (k > High(arr[..i]) || k >= 0x100) then Ok(ps[k - 1]) else Err(Repeat)
  {
    hide Seal, CleanSlot, Channel, Outcome, Wire, InWindow, Run, High, Arrived, AllTimely, Fresh, Repeats;
    var k := arr[i].number;
    ChannelIsWellFormed(c, dir, Fresh(now), ps);
    DeliveredIff(c, dir, Fresh(now), ps, arr, i);
    WireAt(c, Fresh(now), ps, arr, i);
    TimelyAt(arr, i);
    ShortRepeats(Fresh(now), ps, arr[..i], k);
    CleanAfterReset(now, k);
    assert Freed(Fresh(now), arr[..i], k) <==> k >= 0x100;
    if Arrived(arr[..i], k) {
      ArrivedBelowHigh(arr[..i], k);
    }
  }

  /**
   * After a reset the history is not clean: packet 1 overtaken by packet 2 is lost for good, refused
   * as a repeat of a packet that was never accepted.
   */
  lemma {:induction false} OvertakenAfterReset(
    c: Ocb.Cipher, dir: Voice.Direction, now: nat, p1: Voice.VoicePacket, p2: Voice.VoicePacket)
    requires Channel(c, dir, Fresh(now), [p1, p2])
    ensures var rx0, arr := Fresh(now), [Arrival(2, now), Arrival(1, now)];
      var ds := Wire(c, rx0, [p1, p2], arr);
      && Outcome(c, dir, Run(c, rx0, ds[..1]), ds[1].datagram) == Err(Repeat)
      && TWO127 + 1 !in Follow(c, rx0, ds[..1]).log
  {
    hide Wrap128, Seal, Commits, After, LowByte, Page, Channel, Inv, Outcome, Follow, Wire, Run, Distance;
    var rx0, ps, arr := Fresh(now), [p1, p2], [Arrival(2, now), Arrival(1, now)];
    OvertakingIsInWindow(arr, now);
    var ds := Wire(c, rx0, ps, arr);
    WireAt(c, rx0, ps, arr, 0);
    WireAt(c, rx0, ps, arr, 1);
    EmptyStream(c, rx0, ps);
    assert arr[..0] == [] && ds[..0] == [];
    ReorderedDelivery(c, dir, rx0, ps, arr, 0);
    ReorderedDelivery(c, dir, rx0, ps, arr, 1);
    StreamInv(c, rx0, ds[..0]);
    assert ds[..1] == ds[..0] + [ds[0]];
    FollowSnoc(c, rx0, ds[..0], ds[0]);
    LoggedNumber(c, rx0, Follow(c, rx0, ds[..0]), 0, 2, p2, now);
    FirstPage(TWO127 + 1);
    OvertakenSlot();
    var log := Follow(c, rx0, ds[..1]).log;
    assert log == [TWO127 + 2] && log[..0] == [];
    assert LastWriter(log, 1) == LastWriter([], 1) == None;
  }

  lemma {:induction false} OvertakingIsInWindow(arr: seq<Arrival>, now: nat)
    requires arr == [Arrival(2, now), Arrival(1, now)]
    ensures InWindow(arr) && High(arr[..0]) == 0 && High(arr[..1]) == 2
  {
    assert arr[..0] == [] && arr[..1] == [Arrival(2, now)];
    assert arr[..1][..0] == [];
  }

  lemma {:induction false} OvertakenSlot()
    ensures LowByte(TWO127 + 1) == 1 && LowByte(TWO127 + 2) == 2
  {
  }

  // ----- A stream too long for a clean history -----

  lemma {:induction false} WindowSnoc(arr: seq<Arrival>, x: Arrival)
    requires InWindow(arr) && AllTimely(arr) && -30 < x.number - High(arr) <= 127
    ensures InWindow(arr + [x]) && AllTimely(arr + [x]) && High(arr + [x]) == Max(High(arr), x.number)
  {
    hide High;
    var all := arr + [x];
    forall i | 0 <= i < |all|
      ensures -30 < all[i].number - High(all[..i]) <= 127
    {
      assert i < |arr| ==> all[..i] == arr[..i] && Timely(arr[..i], arr[i].number);
      assert i == |arr| ==> all[..i] == arr;
    }
    HighSnoc(arr, x);
  }

  lemma {:induction false} HighSnoc(arr: seq<Arrival>, x: Arrival)
    ensures High(arr + [x]) == Max(High(arr), x.number)
  {
    assert (arr + [x])[..|arr|] == arr;
  }

  lemma {:induction false} LikeSnoc(arr: seq<Arrival>, x: Arrival, k: nat)
    requires (k - x.number) % 0x100 != 0
    ensures LastLike(arr + [x], k) == LastLike(arr, k)
  {
    assert (arr + [x])[..|arr|] == arr;
  }

  /** Packet 5, packet 6, and then every 126th packet: all even, so none shares its slot with packet 5. */
  function Sparse(j: nat, now: nat): seq<Arrival> {
    if j == 0 then [Arrival(5, now), Arrival(6, now)] else Sparse(j - 1, now) + [Arrival(6 + 126 * j, now)]
  }

  lemma {:induction false} SparseStart(now: nat)
    ensures var arr := Sparse(0, now);
      InWindow(arr) && AllTimely(arr) && High(arr) == 6 && LastLike(arr, 65541) == Some(5)
  {
    var none: seq<Arrival> := [];
    WindowSnoc(none, Arrival(5, now));
    assert none + [Arrival(5, now)] == [Arrival(5, now)];
    var one := [Arrival(5, now)];
    assert one[..0] == [];
    WindowSnoc(one, Arrival(6, now));
    LikeSnoc(one, Arrival(6, now), 65541);
    assert one + [Arrival(6, now)] == Sparse(0, now);
  }

  lemma {:induction false} SparseFacts(j: nat, now: nat)
    ensures var arr := Sparse(j, now);
      InWindow(arr) && AllTimely(arr) && High(arr) == 6 + 126 * j && LastLike(arr, 65541) == Some(5)
  {
    hide InWindow, AllTimely, High, LastLike;
    if j == 0 {
      SparseStart(now);
    } else {
      SparseFacts(j - 1, now);
      var x := Arrival(6 + 126 * j, now);
      WindowSnoc(Sparse(j - 1, now), x);
      OddDifference(j);
      LikeSnoc(Sparse(j - 1, now), x, 65541);
    }
  }

  lemma {:induction false} OddDifference(j: nat)
    ensures (65541 - (6 + 126 * j)) % 0x100 != 0
  {
    var d := 65535 - 126 * j;
    assert d == 2 * (32767 - 63 * j) + 1;
  }

  /**
   * Why exactly once needs a short stream: packet 5, then more than 65536 packets further on packet
   * 65541, overtaken by the next. It arrives for the first time, not too late, and every receiver,
   * clean history or not, refuses it as a repeat, because its slot still holds the page of packet 5.
   */
  lemma {:induction false} StaleSlot(rx0: Receiver, ps: seq<Voice.VoicePacket>, now: nat)
    requires WellFormed(rx0) && |ps| >= 65542
    ensures var arr := Sparse(520, now) + [Arrival(65542, now)];
      && InWindow(arr + [Arrival(65541, now)]) && AllTimely(arr + [Arrival(65541, now)])
      && !Arrived(arr, 65541) && Fate(rx0, ps, arr, 65541) == Err(Repeat)
  {
    hide InWindow, AllTimely, High, LastLike, Sparse, Arrived;
    var sparse, x := Sparse(520, now), Arrival(65542, now);
    SparseFacts(520, now);
    WindowSnoc(sparse, x);
    WindowSnoc(sparse + [x], Arrival(65541, now));
    LikeSnoc(sparse, x, 65541);
    ArrivedSnoc(sparse + [x]);
    assert (sparse + [x])[..|sparse|] == sparse;
    if Arrived(sparse, 65541) {
      ArrivedBelowHigh(sparse, 65541);
    }
  }

  /**
   * Whatever the network does to a stream within the window, the lost counter never goes below zero:
   * it grows by the number of packets, up to the highest that arrived, that were not accepted.
   */
  lemma {:induction false} StreamLoss(
    c: Ocb.Cipher, dir: Voice.Direction, rx0: Receiver, ps: seq<Voice.VoicePacket>, arr: seq<Arrival>)
    requires Channel(c, dir, rx0, ps) && Numbered(ps, arr) && InWindow(arr)
    ensures var t := Follow(c, rx0, Wire(c, rx0, ps, arr));
      && t.pos == rx0.nonce + High(arr)
      && t.rx.lost == Wrap32(rx0.lost + |Missing(rx0, t)|)
  {
    hide Channel, InWindow, Follow, Wire, Wrap32, Missing, High, Delivered;
    ChannelIsWellFormed(c, dir, rx0, ps);
    LogIsArrivals(c, dir, rx0, ps, arr);
    StandsAtHighest(c, dir, rx0, ps, arr);
    LossIsExact(c, rx0, Wire(c, rx0, ps, arr));
  }

  /** Right after a reset one datagram from just below the start is good, and makes the lost counter wrap below zero. */
  lemma {:induction false} LateBelowStart(c: Ocb.Cipher, dir: Voice.Direction, now: nat, p: Voice.VoicePacket)
    requires Ocb.Inverse(c) && Voice.Encodable(p) && Voice.Travels(p, dir)
    ensures var rx0, d := Fresh(now), Seal(c, TWO127 - 1, p);
      && Outcome(c, dir, rx0, d) == Ok(p)
      && After(c, rx0, d, now).lost == TWO32 - 1 && After(c, rx0, d, now).nonce == rx0.nonce
  {
    hide Seal, Outcome, Judge, TagMatches, Fresh, Page, LowByte, Voice.Encodable, Voice.Travels, Voice.Encode, Ocb.Encrypt;
    var rx0 := Fresh(now);
    BelowStart(now);
    SealParts(c, TWO127 - 1, p);
    SealedIsOpened(c, dir, rx0, TWO127 - 1, p);
  }

  lemma {:induction false} BelowStart(now: nat)
    ensures WellFormed(Fresh(now))
    ensures LowByte(TWO127 - 1) == 0xff && Judge(Fresh(now), 0xff) == Accept(TWO127 - 1, true, -1)
    ensures Fresh(now).lost == 0
  {
    var rx := Fresh(now);
    assert Signed(0xff - LowByte(rx.nonce)) == -1;
    assert rx.history[0xff] == 0;
  }

  // ----- The two ends as objects -----

  /** Encrypting a stream gives the datagrams under consecutive nonces. */
  method SendAll(sender: CryptState, ps: seq<Voice.VoicePacket>) returns (ds: seq<seq<byte>>)
    requires sender.Valid()
    modifies sender`encryptNonce
    ensures |ds| == |ps|
    ensures forall k :: 0 <= k < |ps| ==> ds[k] == Seal(sender.cipher, Wrap128(old(sender.encryptNonce) + k + 1), ps[k])
  {
    hide Seal, Wrap128;
    ds := [];
    ghost var start := sender.encryptNonce;
    WrapStart(start);
    for i := 0 to |ps|
      invariant sender.encryptNonce == Wrap128(start + i) && |ds| == i
      invariant forall k :: 0 <= k < i ==> ds[k] == Seal(sender.cipher, Wrap128(start + k + 1), ps[k])
    {
      WrapSum(start + i, 1);
      assert start + i + 1 == start + (i + 1);
      var d := sender.Encrypt(ps[i]);
      ds := ds + [d];
    }
  }

  lemma {:induction false} WrapStart(n: u128)
    ensures Wrap128(n + 0) == n
  {
  }

  lemma {:induction false} RunNext(c: Ocb.Cipher, rx0: Receiver, ds: seq<Delivery>, i: nat)
    requires WellFormed(rx0) && i < |ds|
    ensures Run(c, rx0, ds[..i + 1]) == After(c, Run(c, rx0, ds[..i]), ds[i].datagram, ds[i].now)
  {
    hide After;
    assert ds[..i + 1][..i] == ds[..i];
  }

  /** Decrypting datagrams one after the other, whoever sent them. */
  method ReceiveAll(receiver: CryptState, dir: Voice.Direction, ds: seq<Delivery>)
    returns (outs: seq<Result<Voice.VoicePacket>>)
    requires receiver.Valid()
    modifies receiver
    ensures receiver.Valid() && receiver.View() == Run(receiver.cipher, old(receiver.View()), ds)
    ensures |outs| == |ds|
    ensures forall i :: 0 <= i < |ds| ==>
      outs[i] == Outcome(receiver.cipher, dir, Run(receiver.cipher, old(receiver.View()), ds[..i]), ds[i].datagram)
  {
    hide Run, Outcome, After;
    outs := [];
    ghost var c, rx0 := receiver.cipher, receiver.View();
    RunStart(c, rx0, ds);
    for i := 0 to |ds|
      invariant receiver.Valid() && receiver.View() == Run(c, rx0, ds[..i]) && |outs| == i
      invariant forall k :: 0 <= k < i ==> outs[k] == Outcome(c, dir, Run(c, rx0, ds[..k]), ds[k].datagram)
    {
      RunNext(c, rx0, ds, i);
      var r := receiver.Decrypt(dir, ds[i].datagram, ds[i].now);
      outs := outs + [r];
    }
    assert ds[..|ds|] == ds;
  }

  lemma {:induction false} WireIs(
    c: Ocb.Cipher, rx0: Receiver, ps: seq<Voice.VoicePacket>, arr: seq<Arrival>, ds: seq<Delivery>)
    requires Numbered(ps, arr) && |ds| == |arr|
    requires forall i :: 0 <= i < |arr| ==> ds[i] == Delivery(Sent(c, rx0, ps, arr[i].number), arr[i].now)
    ensures ds == Wire(c, rx0, ps, arr)
  {
    hide Sent, Wire;
    forall i | 0 <= i < |arr|
      ensures ds[i] == Wire(c, rx0, ps, arr)[i]
    {
      WireAt(c, rx0, ps, arr, i);
    }
  }

  /** What the network hands over of the datagrams sent. */
  function Carried(ds: seq<seq<byte>>, arr: seq<Arrival>): (r: seq<Delivery>)
    requires forall i :: 0 <= i < |arr| ==> 1 <= arr[i].number <= |ds|
  {
    seq(|arr|, i requires 0 <= i < |arr| => Delivery(ds[arr[i].number - 1], arr[i].now))
  }

  /**
   * A sender and a receiver that share key and nonce, and a network that loses, reorders and repeats
   * within the window: every arrival meets its fate, those in order come out as they went in, and
   * the receiver ends at the highest nonce that arrived.
   */
  method Exchange(
    sender: CryptState, receiver: CryptState, dir: Voice.Direction, ps: seq<Voice.VoicePacket>, arr: seq<Arrival>)
    returns (outs: seq<Result<Voice.VoicePacket>>)
    requires sender.Valid() && receiver.Valid() && sender != receiver
    requires sender.cipher == receiver.cipher && sender.encryptNonce == receiver.decryptNonce
    requires Channel(receiver.cipher, dir, receiver.View(), ps) && Numbered(ps, arr) && InWindow(arr)
    modifies sender`encryptNonce, receiver
    ensures WellFormed(old(receiver.View())) && |outs| == |arr|
    ensures forall i :: 0 <= i < |arr| ==> outs[i] == Fate(old(receiver.View()), ps, arr[..i], arr[i].number)
    ensures Forward(arr) ==> forall i :: 0 <= i < |arr| ==> outs[i] == Ok(ps[arr[i].number - 1])
    ensures receiver.decryptNonce == Wrap128(old(receiver.decryptNonce) + High(arr))
  {
    hide Seal, Wrap128, Channel, Forward, InWindow, Run, Outcome, Numbered, CryptState.View, Fate, High;
    ghost var c, rx0 := receiver.cipher, receiver.View();
    assert rx0.nonce == receiver.decryptNonce by { ViewNonce(receiver); }
    ChannelIsWellFormed(c, dir, rx0, ps);
    var ds := SendAll(sender, ps);
    NumberedAt(ps, arr);
    outs := ReceiveAll(receiver, dir, Carried(ds, arr));
    AllDelivered(c, dir, rx0, ps, arr, ds, outs);
    ViewNonce(receiver);
  }

  lemma {:induction false} ViewNonce(x: CryptState)
    ensures x.View().nonce == x.decryptNonce
  {
  }

  lemma {:induction false} NumberedAt(ps: seq<Voice.VoicePacket>, arr: seq<Arrival>)
    requires Numbered(ps, arr)
    ensures forall i :: 0 <= i < |arr| ==> 1 <= arr[i].number <= |ps|
  {
  }

  /** The outcomes of the datagrams of a stream that arrive in the window. */
  lemma {:induction false} AllDelivered(
    c: Ocb.Cipher, dir: Voice.Direction, rx0: Receiver, ps: seq<Voice.VoicePacket>, arr: seq<Arrival>,
    ds: seq<seq<byte>>, outs: seq<Result<Voice.VoicePacket>>)
    requires WellFormed(rx0) && Channel(c, dir, rx0, ps) && Numbered(ps, arr) && InWindow(arr)
    requires |ds| == |ps| && forall k :: 0 <= k < |ps| ==> ds[k] == Seal(c, Wrap128(rx0.nonce + k + 1), ps[k])
    requires |outs| == |arr|
    requires forall i :: 0 <= i < |arr| ==>
      outs[i] == Outcome(c, dir, Run(c, rx0, Carried(ds, arr)[..i]), Carried(ds, arr)[i].datagram)
    ensures forall i :: 0 <= i < |arr| ==> outs[i] == Fate(rx0, ps, arr[..i], arr[i].number)
    ensures Forward(arr) ==> forall i :: 0 <= i < |arr| ==> outs[i] == Ok(ps[arr[i].number - 1])
    ensures Run(c, rx0, Carried(ds, arr)).nonce == Wrap128(rx0.nonce + High(arr))
  {
    hide Seal, Wrap128, Channel, Forward, InWindow, Run, Outcome, Wire, Fate, High, Inv;
    var carried := Carried(ds, arr);
    WireIs(c, rx0, ps, arr, carried);
    forall i | 0 <= i < |arr|
      ensures outs[i] == Fate(rx0, ps, arr[..i], arr[i].number)
      ensures Forward(arr) ==> outs[i] == Ok(ps[arr[i].number - 1])
    {
      DeliveredIff(c, dir, rx0, ps, arr, i);
      if Forward(arr) {
        InOrderDelivery(c, dir, rx0, ps, arr, i);
      }
    }
    EndsAtHighest(c, dir, rx0, ps, arr);
  }

  lemma {:induction false} EndsAtHighest(
    c: Ocb.Cipher, dir: Voice.Direction, rx0: Receiver, ps: seq<Voice.VoicePacket>, arr: seq<Arrival>)
    requires Channel(c, dir, rx0, ps) && Numbered(ps, arr) && InWindow(arr) && WellFormed(rx0)
    ensures Run(c, rx0, Wire(c, rx0, ps, arr)).nonce == Wrap128(rx0.nonce + High(arr))
  {
    hide Wrap128, Channel, InWindow, Run, Wire, High, Inv;
    StandsAtHighest(c, dir, rx0, ps, arr);
    StreamInv(c, rx0, Wire(c, rx0, ps, arr));
  }

  lemma {:induction false} RunStart(c: Ocb.Cipher, rx0: Receiver, ds: seq<Delivery>)
    requires WellFormed(rx0)
    ensures Run(c, rx0, ds[..0]) == rx0
  {
  }
}
