/** `RateLimitMiddleware` (backend/app/core/middleware.py lines 9-44): a
    per-client counter over a fixed window. Each client address has at most
    one entry, its request count and the time its window started; a request
    is refused with status 429 when it would push the count of the current
    window past the maximum. Times are whole seconds here. */
module RateLimit {

  const Window: int := 60
  const MaxRequests: nat := 1000

  /** `(requests_count, start_time)`. */
  datatype Entry = Entry(count: nat, start: int)

  type Storage = map<string, Entry>

  /** Whether the request may pass, and the storage afterwards. */
  datatype Verdict = Verdict(allowed: bool, storage: Storage)

  /** Every stored count lies between one and the maximum. */
  predicate WellFormed(storage: Storage) {
    forall ip :: ip in storage ==> 1 <= storage[ip].count <= MaxRequests
  }

  /** The middleware's decision for a request from `ip` at time `now`. */
  function Admit(storage: Storage, ip: string, now: int): (v: Verdict)
    // Only the client's own entry is ever touched.
    ensures v.storage - {ip} == storage - {ip}
    // A refused request leaves the storage as it was.
    ensures !v.allowed ==> v.storage == storage
    ensures v.allowed ==> ip in v.storage
    // A first request, or one a full window after the entry's start, opens
    // a new window.
    ensures ip !in storage || now - storage[ip].start >= Window
      ==> v.allowed && v.storage[ip] == Entry(1, now)
    // Inside the window the request passes exactly when the incremented
    // count stays within the maximum, and the window's start is kept.
    ensures ip in storage && now - storage[ip].start < Window
      ==> (v.allowed <==> storage[ip].count + 1 <= MaxRequests)
          && (v.allowed ==> v.storage[ip] == Entry(storage[ip].count + 1, storage[ip].start))
  {
    if ip in storage then
      var e := storage[ip];
      if now - e.start >= Window then Verdict(true, storage[ip := Entry(1, now)])
      else if e.count + 1 > MaxRequests then Verdict(false, storage)
      else Verdict(true, storage[ip := Entry(e.count + 1, e.start)])
    else
      Verdict(true, storage[ip := Entry(1, now)])
  }

  /** No stored count ever exceeds the maximum, nor drops to zero. */
  lemma AdmitKeepsWellFormed(storage: Storage, ip: string, now: int)
    requires WellFormed(storage)
    ensures WellFormed(Admit(storage, ip, now).storage)
  {
    var s := Admit(storage, ip, now).storage;
    forall other | other in s
      ensures 1 <= s[other].count <= MaxRequests
    {
      if other != ip {
        assert other in s - {ip};
        assert other in storage - {ip};
      }
    }
  }

  /** The decisions for requests from one client at the times `times`, in
      order, and the storage after them. */
  function Replay(storage: Storage, ip: string, times: seq<int>): (r: (seq<bool>, Storage))
    ensures |r.0| == |times|
    decreases |times|
  {
    if |times| == 0 then ([], storage)
    else
      var (before, s) := Replay(storage, ip, times[..|times| - 1]);
      var v := Admit(s, ip, times[|times| - 1]);
      (before + [v.allowed], v.storage)
  }

  /** A client seen for the first time at `t0` whose requests all come before
      `t0 + Window` gets exactly its first `MaxRequests` requests through. */
  lemma {:induction false} BurstWithinWindow(storage: Storage, ip: string, times: seq<int>)
    requires ip !in storage
    requires |times| > 0
    requires forall i :: 0 <= i < |times| ==> times[i] - times[0] < Window
    ensures forall i :: 0 <= i < |times| ==> (Replay(storage, ip, times).0[i] <==> i < MaxRequests)
    ensures var s := Replay(storage, ip, times).1;
      ip in s && s[ip] == Entry(if |times| <= MaxRequests then |times| else MaxRequests, times[0])
    decreases |times|
  {
    var n := |times|;
    if n > 1 {
      var init := times[..n - 1];
      assert init[0] == times[0];
      BurstWithinWindow(storage, ip, init);
      var s := Replay(storage, ip, init).1;
      assert times[n - 1] - s[ip].start < Window;
    }
  }
}
