/** The Wi-Fi association of ApiServer::connect_wifi (src/server/server.cpp):
    which authentication modes are tried, in what order and with what timeout,
    and what is remembered in the store when a mode other than the remembered
    one succeeds. The radio is an oracle that tells whether one attempt
    associates. */
module Wifi {
  import opened Bytes
  import opened ConfigLayout
  import opened ConfigStore
  import opened Reassembly

  /** The authentication modes of the cyw43 driver (the CYW43_AUTH_* constants
      of its header cyw43_ll.h), in the order they are tried. */
  const WPA3_SAE_AES_PSK: u32 := 0x0100_0004
  const WPA3_WPA2_AES_PSK: u32 := 0x0140_0004
  const WPA2_MIXED_PSK: u32 := 0x0040_0006
  const WPA2_AES_PSK: u32 := 0x0040_0004
  const AUTH_MODES: seq<u32> := [WPA3_SAE_AES_PSK, WPA3_WPA2_AES_PSK, WPA2_MIXED_PSK, WPA2_AES_PSK]

  /** The remembered mode gets one attempt of 5 s; round r gives each other
      mode 2·r s. */
  const STORED_TIMEOUT: nat := 5000
  const ROUND_TIMEOUT: nat := 2000
  const ROUNDS: nat := 3

  /** The key under which the last mode that worked is kept, as decimal text. */
  const WIFI_AUTH: seq<byte> := Ascii("wifi_auth")

  /** The range of int, for std::stoi. */
  const INT_MIN: int := -0x8000_0000
  const INT_MAX: int := 0x7FFF_FFFF

  // ---------------------------------------------------------------------------
  // std::stoi

  /** isspace in the C locale. */
  predicate IsSpace(b: byte) {
    b == 0x20 || 0x09 <= b <= 0x0D
  }

  const MINUS: byte := 0x2D
  const PLUS: byte := 0x2B

  function SkipSpace(s: seq<byte>): (t: seq<byte>)
    ensures |t| <= |s| && t == s[|s| - |t|..]
    ensures t != [] ==> !IsSpace(t[0])
    decreases |s|
  {
    if s != [] && IsSpace(s[0]) then SkipSpace(s[1..]) else s
  }

  /** The number of leading decimal digits. */
  function DigitRun(s: seq<byte>): (n: nat)
    ensures n <= |s| && AllDigits(s[..n]) && (n < |s| ==> !IsDigit(s[n]))
    decreases |s|
  {
    if s != [] && IsDigit(s[0]) then
      var n := 1 + DigitRun(s[1..]);
      assert s[..n] == [s[0]] + s[1..][..n - 1];
      n
    else 0
  }

  /** std::stoi: leading white space, an optional sign, then at least one digit;
      what follows the digits is ignored. `None` stands for the exceptions it
      throws when there is no digit or the value does not fit an int. */
  function Stoi(s: seq<byte>): (r: Option<int>)
    ensures r.Some? ==> INT_MIN <= r.value <= INT_MAX
  {
    var t := SkipSpace(s);
    if t != [] && t[0] == MINUS then Signed(t[1..], true)
    else if t != [] && t[0] == PLUS then Signed(t[1..], false)
    else Signed(t, false)
  }

  /** The digits after the sign, read as an int of that sign. */
  function Signed(u: seq<byte>, negative: bool): (r: Option<int>)
    ensures r.Some? ==> INT_MIN <= r.value <= INT_MAX
  {
    var n := DigitRun(u);
    if n == 0 then None
    else
      var v: int := if negative then -(DecimalValue(u[..n]) as int) else DecimalValue(u[..n]);
      if INT_MIN <= v <= INT_MAX then Some(v) else None
  }

  lemma {:induction false} DigitRunAll(s: seq<byte>)
    requires AllDigits(s)
    ensures DigitRun(s) == |s|
    decreases |s|
  {
    if s != [] {
      DigitRunAll(s[1..]);
    }
  }

  /** A plain run of digits reads as its decimal value. */
  lemma StoiReadsDigits(d: seq<byte>)
    requires d != [] && AllDigits(d) && DecimalValue(d) <= INT_MAX
    ensures Stoi(d) == Some(DecimalValue(d) as int)
  {
    assert IsDigit(d[0]);
    assert !IsSpace(d[0]) && d[0] != MINUS && d[0] != PLUS;
    assert SkipSpace(d) == d;
    assert Stoi(d) == Signed(d, false);
    DigitRunAll(d);
    assert d[..|d|] == d;
  }

  /** What std::to_string wrote, std::stoi reads back. */
  lemma StoiReadsDecimal(n: nat)
    requires n <= INT_MAX
    ensures Stoi(Decimal(n)) == Some(n)
  {
    DecimalRoundTrip(n);
    StoiReadsDigits(Decimal(n));
  }

  /** uint32_t of an int: negative values wrap around. */
  function ToU32(v: int): (m: u32)
    ensures 0 <= v < U32_LIMIT ==> m == v
  {
    v % U32_LIMIT
  }

  // ---------------------------------------------------------------------------
  // The attempt schedule

  datatype Attempt = Attempt(mode: u32, timeoutMs: nat)

  predicate Distinct<T(==)>(s: seq<T>) {
    forall i, j :: 0 <= i < j < |s| ==> s[i] != s[j]
  }

  lemma AuthModesDistinct()
    ensures Distinct(AUTH_MODES)
  {
  }

  /** Round `retry` over the first `k` modes: every mode but the remembered one,
      in order, with timeout 2000·retry. */
  function Round(stored: u32, retry: nat, k: nat): seq<Attempt>
    requires k <= |AUTH_MODES|
  {
    if k == 0 then []
    else
      var m := AUTH_MODES[k - 1];
      Round(stored, retry, k - 1) + (if m == stored then [] else [Attempt(m, ROUND_TIMEOUT * retry)])
  }

  /** A round skips the remembered mode, repeats no mode and waits 2000·retry
      for each. */
  lemma {:induction false} RoundFacts(stored: u32, retry: nat, k: nat)
    requires k <= |AUTH_MODES|
    ensures var a := Round(stored, retry, k);
            (forall i :: 0 <= i < |a| ==> a[i].timeoutMs == ROUND_TIMEOUT * retry)
            && (forall i :: 0 <= i < |a| ==> a[i].mode != stored && a[i].mode in AUTH_MODES[..k])
            && Distinct(a)
            && |a| == k - (if stored in AUTH_MODES[..k] then 1 else 0)
  {
    if k > 0 {
      RoundFacts(stored, retry, k - 1);
      var m := AUTH_MODES[k - 1];
      assert AUTH_MODES[..k] == AUTH_MODES[..k - 1] + [m];
      assert m !in AUTH_MODES[..k - 1];
    }
  }

  /** The attempts in one round. */
  function RoundSize(stored: u32): nat
  {
    if stored in AUTH_MODES then |AUTH_MODES| - 1 else |AUTH_MODES|
  }

  /** Rounds 1 to `retry`, one after the other. */
  function Rounds(stored: u32, retry: nat): seq<Attempt>
  {
    if retry == 0 then [] else Rounds(stored, retry - 1) + Round(stored, retry, |AUTH_MODES|)
  }

  /** The rounds skip the remembered mode, repeat no attempt (each round waits
      longer than the one before) and hold RoundSize attempts each. */
  lemma {:induction false} RoundsFacts(stored: u32, retry: nat)
    ensures var a := Rounds(stored, retry);
            (forall i :: 0 <= i < |a| ==> 0 < a[i].timeoutMs <= ROUND_TIMEOUT * retry)
            && (forall i :: 0 <= i < |a| ==> a[i].timeoutMs % ROUND_TIMEOUT == 0)
            && (forall i :: 0 <= i < |a| ==> a[i].mode != stored && a[i].mode in AUTH_MODES)
            && Distinct(a)
            && |a| == retry * RoundSize(stored)
  {
    if retry > 0 {
      RoundsFacts(stored, retry - 1);
      RoundFacts(stored, retry, |AUTH_MODES|);
      var earlier, last := Rounds(stored, retry - 1), Round(stored, retry, |AUTH_MODES|);
      assert AUTH_MODES[..|AUTH_MODES|] == AUTH_MODES;
      assert forall i, j :: 0 <= i < |earlier| && 0 <= j < |last| ==> earlier[i].timeoutMs < last[j].timeoutMs;
      DistinctConcat(earlier, last);
    }
  }

  lemma DistinctConcat<T>(a: seq<T>, b: seq<T>)
    requires Distinct(a) && Distinct(b)
    requires forall i, j :: 0 <= i < |a| && 0 <= j < |b| ==> a[i] != b[j]
    ensures Distinct(a + b)
  {
  }

  /** The attempt with the remembered mode, when it is one of the four. */
  function First(stored: u32): (a: seq<Attempt>)
    ensures stored in AUTH_MODES ==> a == [Attempt(stored, STORED_TIMEOUT)]
    ensures stored !in AUTH_MODES ==> a == []
  {
    if stored in AUTH_MODES then [Attempt(stored, STORED_TIMEOUT)] else []
  }

  /** Every attempt connect_wifi makes, in order, until one succeeds. */
  function Schedule(stored: u32): seq<Attempt>
  {
    First(stored) + Rounds(stored, ROUNDS)
  }

  /** The remembered mode is tried first, with its own timeout, and never again. */
  lemma StoredTriedFirst(stored: u32)
    requires stored in AUTH_MODES
    ensures var s := Schedule(stored);
            s[0] == Attempt(stored, STORED_TIMEOUT) && forall i :: 1 <= i < |s| ==> s[i].mode != stored
  {
    var s, r := Schedule(stored), Rounds(stored, ROUNDS);
    RoundsFacts(stored, ROUNDS);
    assert forall i :: 1 <= i < |s| ==> s[i] == r[i - 1];
  }

  /** An unknown remembered mode gets no attempt of its own. */
  lemma UnknownStoredSkipped(stored: u32)
    requires stored !in AUTH_MODES
    ensures Schedule(stored) == Rounds(stored, ROUNDS)
  {
  }

  /** Every attempt uses one of the four modes, and no attempt is repeated, so
      the oracle may answer per attempt. */
  lemma ScheduleDistinct(stored: u32)
    ensures var s := Schedule(stored);
            (forall i :: 0 <= i < |s| ==> s[i].mode in AUTH_MODES) && Distinct(s)
  {
    var f, r := First(stored), Rounds(stored, ROUNDS);
    RoundsFacts(stored, ROUNDS);
    assert forall i :: 0 <= i < |r| ==> r[i].timeoutMs != STORED_TIMEOUT;
    DistinctConcat(f, r);
    ModesConcat(f, r);
  }

  lemma ModesConcat(a: seq<Attempt>, b: seq<Attempt>)
    requires forall i :: 0 <= i < |a| ==> a[i].mode in AUTH_MODES
    requires forall i :: 0 <= i < |b| ==> b[i].mode in AUTH_MODES
    ensures forall i :: 0 <= i < |a + b| ==> (a + b)[i].mode in AUTH_MODES
  {
  }

  /** Three rounds of the modes other than the remembered one. */
  lemma ScheduleLength(stored: u32)
    ensures |Schedule(stored)| == if stored in AUTH_MODES then 1 + 3 * 3 else 3 * 4
  {
    RoundsFacts(stored, ROUNDS);
  }

  /** The index of the first attempt that associates. */
  function FirstSuccess(attempts: seq<Attempt>, connect: Attempt -> bool): (r: Option<nat>)
    ensures r.Some? ==> r.value < |attempts| && connect(attempts[r.value])
    ensures r.Some? ==> forall j :: 0 <= j < r.value ==> !connect(attempts[j])
    ensures r.None? ==> forall j :: 0 <= j < |attempts| ==> !connect(attempts[j])
    decreases |attempts|
  {
    if attempts == [] then None
    else if connect(attempts[0]) then Some(0)
    else match FirstSuccess(attempts[1..], connect)
      case None => None
      case Some(i) => Some(i + 1)
  }

  /** An attempt that associates after a run of failures is the first success. */
  lemma {:induction false} FirstSuccessAt(attempts: seq<Attempt>, connect: Attempt -> bool, i: nat)
    requires i < |attempts| && connect(attempts[i])
    requires forall j :: 0 <= j < i ==> !connect(attempts[j])
    ensures FirstSuccess(attempts, connect) == Some(i)
    decreases i
  {
    if i > 0 {
      FirstSuccessAt(attempts[1..], connect, i - 1);
    }
  }

  /** Fewer rounds are a prefix of more rounds. */
  lemma {:induction false} RoundsPrefix(stored: u32, r: nat, n: nat)
    requires r <= n
    ensures Rounds(stored, r) <= Rounds(stored, n)
    decreases n
  {
    if r < n {
      RoundsPrefix(stored, r, n - 1);
      RoundsStep(stored, n);
      PrefixAppend(Rounds(stored, n - 1), Round(stored, n, |AUTH_MODES|));
      PrefixTransitive(Rounds(stored, r), Rounds(stored, n - 1), Rounds(stored, n));
    }
  }

  /** Part of a round is a prefix of the whole round. */
  lemma {:induction false} RoundPrefix(stored: u32, retry: nat, k: nat, n: nat)
    requires k <= n <= |AUTH_MODES|
    ensures Round(stored, retry, k) <= Round(stored, retry, n)
    decreases n
  {
    if k < n {
      RoundPrefix(stored, retry, k, n - 1);
    }
  }

  /** Where connect_wifi stands after the first `k` modes of round `retry`:
      every attempt made so far is the start of the schedule. */
  lemma ScheduleSoFar(stored: u32, retry: nat, k: nat)
    requires 1 <= retry <= ROUNDS && k <= |AUTH_MODES|
    ensures First(stored) + Rounds(stored, retry - 1) + Round(stored, retry, k) <= Schedule(stored)
  {
    var f, e := First(stored), Rounds(stored, retry - 1);
    var part, whole := Round(stored, retry, k), Round(stored, retry, |AUTH_MODES|);
    RoundPrefix(stored, retry, k, |AUTH_MODES|);
    RoundsStep(stored, retry);
    RoundsPrefix(stored, retry, ROUNDS);
    ExtendPrefix(e, part, whole);
    PrefixTransitive(e + part, e + whole, Rounds(stored, ROUNDS));
    ExtendPrefix(f, e + part, Rounds(stored, ROUNDS));
    ConcatAssociates(f, e, part);
  }

  lemma ConcatAssociates<T>(a: seq<T>, b: seq<T>, c: seq<T>)
    ensures a + b + c == a + (b + c)
  {
  }

  lemma PrefixAppend<T>(a: seq<T>, b: seq<T>)
    ensures a <= a + b
  {
    assert (a + b)[..|a|] == a;
  }

  /** Round `retry` follows the earlier rounds. */
  lemma RoundsStep(stored: u32, retry: nat)
    requires retry >= 1
    ensures Rounds(stored, retry) == Rounds(stored, retry - 1) + Round(stored, retry, |AUTH_MODES|)
  {
    assert AUTH_MODES[..|AUTH_MODES|] == AUTH_MODES;
  }

  lemma PrefixTransitive<T>(a: seq<T>, b: seq<T>, c: seq<T>)
    requires a <= b && b <= c
    ensures a <= c
  {
    assert c[..|a|] == b[..|a|];
  }

  lemma ExtendPrefix<T>(a: seq<T>, b: seq<T>, c: seq<T>)
    requires b <= c
    ensures a + b <= a + c
  {
    assert (a + c)[..|a + b|] == a + b;
  }

  /** The attempt loops of connect_wifi: the remembered mode when it is one of
      the four, then three rounds over the others, stopping at the first
      attempt that associates. Returns its index in the schedule. */
  method Associate(stored: u32, connect: Attempt -> bool) returns (winner: Option<nat>)
    ensures winner == FirstSuccess(Schedule(stored), connect)
  {
    ghost var schedule := Schedule(stored);
    if stored in AUTH_MODES {
      if connect(Attempt(stored, STORED_TIMEOUT)) {
        FirstSuccessAt(schedule, connect, 0);
        return Some(0);
      }
    }
    var tried := |First(stored)|;
    var retry := 1;
    DoneStart(stored);
    while retry <= ROUNDS
      invariant 1 <= retry <= ROUNDS + 1
      invariant tried == Done(stored, retry, 0) && FailedBefore(schedule, connect, tried)
    {
      var k := 0;
      while k < |AUTH_MODES|
        invariant 0 <= k <= |AUTH_MODES|
        invariant tried == Done(stored, retry, k) && FailedBefore(schedule, connect, tried)
      {
        var mode := AUTH_MODES[k];
        DoneStep(stored, retry, k);
        if mode != stored {
          if connect(Attempt(mode, ROUND_TIMEOUT * retry)) {
            FirstSuccessAt(schedule, connect, tried);
            return Some(tried);
          }
          FailuresExtend(schedule, connect, tried);
          tried := tried + 1;
        }
        k := k + 1;
      }
      DoneRound(stored, retry);
      retry := retry + 1;
    }
    NoSuccess(schedule, connect);
    return None;
  }

  /** The first `n` attempts all fail. */
  predicate FailedBefore(attempts: seq<Attempt>, connect: Attempt -> bool, n: nat) {
    n <= |attempts| && forall j :: 0 <= j < n ==> !connect(attempts[j])
  }

  lemma FailuresExtend(attempts: seq<Attempt>, connect: Attempt -> bool, n: nat)
    requires FailedBefore(attempts, connect, n) && n < |attempts| && !connect(attempts[n])
    ensures FailedBefore(attempts, connect, n + 1)
  {
  }

  lemma NoSuccess(attempts: seq<Attempt>, connect: Attempt -> bool)
    requires FailedBefore(attempts, connect, |attempts|)
    ensures FirstSuccess(attempts, connect) == None
  {
  }

  /** How many attempts connect_wifi has made after the first `k` modes of
      round `retry`. */
  ghost function Done(stored: u32, retry: nat, k: nat): nat
    requires 1 <= retry && k <= |AUTH_MODES|
  {
    |First(stored) + Rounds(stored, retry - 1) + Round(stored, retry, k)|
  }

  lemma DoneStart(stored: u32)
    ensures Done(stored, 1, 0) == |First(stored)|
  {
  }

  /** The next mode of a round is the next attempt of the schedule, unless it
      is the remembered one. */
  lemma DoneStep(stored: u32, retry: nat, k: nat)
    requires 1 <= retry <= ROUNDS && k < |AUTH_MODES|
    ensures var n, m := Done(stored, retry, k), AUTH_MODES[k];
            Done(stored, retry, k + 1) == (if m == stored then n else n + 1)
            && (m != stored ==> n < |Schedule(stored)| && Schedule(stored)[n] == Attempt(m, ROUND_TIMEOUT * retry))
  {
    var m := AUTH_MODES[k];
    var p := First(stored) + Rounds(stored, retry - 1) + Round(stored, retry, k);
    assert Round(stored, retry, k + 1) == Round(stored, retry, k) + (if m == stored then [] else [Attempt(m, ROUND_TIMEOUT * retry)]);
    if m != stored {
      ScheduleSoFar(stored, retry, k + 1);
      assert p + [Attempt(m, ROUND_TIMEOUT * retry)] == First(stored) + Rounds(stored, retry - 1) + Round(stored, retry, k + 1);
    }
  }

  /** A finished round is where the next one starts; after the last one the
      schedule is used up. */
  lemma DoneRound(stored: u32, retry: nat)
    requires 1 <= retry <= ROUNDS
    ensures Done(stored, retry, |AUTH_MODES|) == Done(stored, retry + 1, 0)
    ensures retry == ROUNDS ==> Done(stored, retry + 1, 0) == |Schedule(stored)|
  {
    RoundsStep(stored, retry);
  }

  datatype Outcome = Connected | Failed | Aborted

  /** connect_wifi: the store, the console messages and the outcome. Reading a
      remembered mode that std::stoi refuses aborts (an uncaught exception).
      A success in the rounds stores the mode as decimal text and commits. */
  function Connection(s: Store, ssid: seq<byte>, initFails: bool, connect: Attempt -> bool): (res: (Store, seq<Event>, Outcome))
    requires ValidRecord(s.record)
    ensures ValidRecord(res.0.record)
    ensures res.2 != Connected ==> res.0 == s
  {
    if initFails then (s, [Print("Failed to initialize Wi-Fi module")], Failed)
    else
      var j := Joined(s, connect);
      (j.0, [Print("Connecting to Wi-Fi: " + Chars(ssid))] + j.1, j.2)
  }

  /** connect_wifi once the radio is up: read the remembered mode, make the
      attempts, settle. */
  function Joined(s: Store, connect: Attempt -> bool): (res: (Store, seq<Event>, Outcome))
    requires ValidRecord(s.record)
    ensures ValidRecord(res.0.record)
    ensures res.2 != Connected ==> res.0 == s
  {
    match Stoi(Get(s.record, WIFI_AUTH))
    case None => (s, [], Aborted)
    case Some(v) =>
      var stored := ToU32(v);
      Settled(s, stored, FirstSuccess(Schedule(stored), connect))
  }

  /** What follows the attempts: failure is reported; a success in the rounds
      stores the winning mode as decimal text and commits. */
  function Settled(s: Store, stored: u32, winner: Option<nat>): (res: (Store, seq<Event>, Outcome))
    requires ValidRecord(s.record)
    requires winner.Some? ==> winner.value < |Schedule(stored)|
    ensures ValidRecord(res.0.record)
    ensures res.2 == (if winner.Some? then Connected else Failed)
    ensures res.2 != Connected ==> res.0 == s
    ensures winner.Some? && winner.value < |First(stored)| ==> res.0 == s
  {
    match winner
    case None => (s, [Print("Unable to connect to Wi-Fi")], Failed)
    case Some(i) =>
      if i < |First(stored)| then (s, [], Connected)
      else (Commit(StoreSet(s, WIFI_AUTH, Decimal(Schedule(stored)[i].mode)).0).0, [], Connected)
  }

  /** The connection succeeds exactly when some attempt of the schedule
      associates. */
  lemma ConnectedIffSomeAttemptAssociates(s: Store, ssid: seq<byte>, connect: Attempt -> bool)
    requires ValidRecord(s.record) && Stoi(Get(s.record, WIFI_AUTH)).Some?
    ensures var stored := ToU32(Stoi(Get(s.record, WIFI_AUTH)).value);
            Connection(s, ssid, false, connect).2 == Connected
            <==> exists i :: 0 <= i < |Schedule(stored)| && connect(Schedule(stored)[i])
  {
  }

  /** A mode that succeeds in the rounds is remembered: after the commit it
      reads back, so the next start-up tries it first. */
  lemma WinnerRemembered(s: Store, ssid: seq<byte>, connect: Attempt -> bool)
    requires ValidRecord(s.record) && DistinctKeys(s.record)
    requires Find(s.record, WIFI_AUTH).Some? || s.record.entryCount < MAX_ENTRIES
    requires Stoi(Get(s.record, WIFI_AUTH)).Some?
    requires var stored := ToU32(Stoi(Get(s.record, WIFI_AUTH)).value);
             var i := FirstSuccess(Schedule(stored), connect);
             i.Some? && i.value >= |First(stored)|
    ensures var stored := ToU32(Stoi(Get(s.record, WIFI_AUTH)).value);
            var mode := Schedule(stored)[FirstSuccess(Schedule(stored), connect).value].mode;
            var s' := Connection(s, ssid, false, connect).0;
            Stoi(Get(s'.record, WIFI_AUTH)) == Some(mode as int) && !s'.dirty
            && Schedule(mode)[0] == Attempt(mode, STORED_TIMEOUT)
  {
    var stored := ToU32(Stoi(Get(s.record, WIFI_AUTH)).value);
    var i := FirstSuccess(Schedule(stored), connect).value;
    var mode := Schedule(stored)[i].mode;
    ScheduleDistinct(stored);
    assert mode in AUTH_MODES;
    ModeStored(s, mode);
    assert Connection(s, ssid, false, connect).0 == Commit(StoreSet(s, WIFI_AUTH, Decimal(mode)).0).0;
  }

  /** Storing a mode as decimal text and committing makes it read back. */
  lemma ModeStored(s: Store, mode: u32)
    requires ValidRecord(s.record) && mode in AUTH_MODES
    requires Find(s.record, WIFI_AUTH).Some? || s.record.entryCount < MAX_ENTRIES
    ensures var s' := Commit(StoreSet(s, WIFI_AUTH, Decimal(mode)).0).0;
            Stoi(Get(s'.record, WIFI_AUTH)) == Some(mode as int) && !s'.dirty
            && Schedule(mode)[0] == Attempt(mode, STORED_TIMEOUT)
  {
    var d := Decimal(mode);
    assert |d| <= MAX_VALUE_LEN by {
      assert Pow10(8) == 100000000;
      DecimalLength(mode, 8);
    }
    if Find(s.record, WIFI_AUTH).Some? {
      SetExisting(s.record, WIFI_AUTH, d);
    } else {
      SetNew(s.record, WIFI_AUTH, d);
    }
    var r := StoreSet(s, WIFI_AUTH, d).0;
    CommitKeepsEntries(r);
    StoiReadsDecimal(mode);
  }

  /** A commit reseals the record but keeps what every key reads back. */
  lemma CommitKeepsEntries(s: Store)
    requires ValidRecord(s.record)
    ensures ValidRecord(Commit(s).0.record)
    ensures forall key :: Get(Commit(s).0.record, key) == Get(s.record, key)
  {
    var s' := Commit(s).0;
    forall key
      ensures Get(s'.record, key) == Get(s.record, key)
    {
      FindUnaffected(s.record, s'.record, key, 0);
    }
  }

  /** A remembered "20971524", the text connect_wifi stores after a WPA3/WPA2
      success, reads back as that mode, which then gets the 5 s first attempt
      and nine more in the rounds. */
  lemma MixedModeTriedFirst()
    ensures Stoi(Decimal(20971524)) == Some(WPA3_WPA2_AES_PSK as int)
    ensures First(WPA3_WPA2_AES_PSK) == [Attempt(WPA3_WPA2_AES_PSK, STORED_TIMEOUT)]
    ensures |Schedule(WPA3_WPA2_AES_PSK)| == 10
  {
    StoiReadsDecimal(20971524);
    ScheduleLength(WPA3_WPA2_AES_PSK);
  }

  /** The default remembered mode, "16777220", is WPA3 SAE. */
  lemma DefaultModeIsKnown()
    ensures Stoi(Decimal(16777220)) == Some(WPA3_SAE_AES_PSK as int)
    ensures WPA3_SAE_AES_PSK in AUTH_MODES
  {
    StoiReadsDecimal(16777220);
  }
}
