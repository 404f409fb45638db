/** The fixed-window limiter (INCR, then EXPIRE on the first hit) and the login bot-risk check built on it. */
module RateLimiter {
  import opened Prelude

  datatype Window = Window(count: nat, expiresAt: int)

  type Store = map<string, Window>

  datatype Decision = Decision(allowed: bool, remaining: nat)

  /** The key's value if Redis has not expired it. */
  function Lookup(store: Store, key: string, now: int): Option<Window> {
    if key in store && now < store[key].expiresAt then Some(store[key]) else None
  }

  function Hit(w: Option<Window>, now: int, window: int): Window {
    match w
    case Some(live) => live.(count := live.count + 1)
    case None => Window(1, now + window)
  }

  function Decide(count: nat, limit: nat): Decision {
    if count > limit then Decision(false, 0) else Decision(true, limit - count)
  }

  function Consumed(store: Store, key: string, now: int, window: int): Store {
    store[key := Hit(Lookup(store, key, now), now, window)]
  }

  function Verdict(store: Store, key: string, limit: nat, now: int): Decision {
    Decide(match Lookup(store, key, now) case Some(w) => w.count + 1 case None => 1, limit)
  }

  class Limiter {
    var store: Store

    constructor ()
      ensures store == map[]
    {
      store := map[];
    }

    /** One atomic script on the full key, then the comparison with the limit. */
    method Consume(key: string, limit: nat, windowSeconds: int, now: int) returns (d: Decision)
      modifies this`store
      ensures store == Consumed(old(store), "rl:" + key, now, windowSeconds)
      ensures d == Verdict(old(store), "rl:" + key, limit, now)
    {
      var fullKey := "rl:" + key;
      var count: nat := 1;
      if fullKey in store && now < store[fullKey].expiresAt {
        count := store[fullKey].count + 1;
        store := store[fullKey := store[fullKey].(count := count)];
      } else {
        store := store[fullKey := Window(1, now + windowSeconds)];
      }
      if count > limit {
        return Decision(false, 0);
      }
      return Decision(true, limit - count);
    }
  }

  // ----- traces on one key -----

  predicate Sorted(times: seq<int>) {
    forall i, j :: 0 <= i < j < |times| ==> times[i] <= times[j]
  }

  /** The state the next request sees. */
  function At(w: Option<Window>, now: int): Option<Window> {
    if w.Some? && now < w.value.expiresAt then w else None
  }

  predicate Allows(w: Option<Window>, now: int, limit: nat) {
    Decide(Hit(At(w, now), now, 1).count, limit).allowed
  }

  /** How many of the requests with a <= time < b are allowed. */
  function AllowedIn(w: Option<Window>, times: seq<int>, limit: nat, window: int, a: int, b: int): nat
    decreases |times|
  {
    if |times| == 0 then 0
    else
      var t := times[0];
      (if a <= t < b && Allows(w, t, limit) then 1 else 0)
      + AllowedIn(Some(Hit(At(w, t), t, window)), times[1..], limit, window, a, b)
  }

  /** A key that exists has been hit. */
  predicate Sound(w: Option<Window>) {
    w.Some? ==> w.value.count >= 1
  }

  function Left(limit: nat, count: nat): nat {
    if count < limit then limit - count else 0
  }

  /** What can still be allowed inside [a, a + window), given where the current window ends. */
  function Potential(w: Option<Window>, limit: nat, a: int, b: int): nat {
    if w.None? || w.value.expiresAt <= a then (if limit == 0 then 0 else 2 * limit - 1)
    else if w.value.expiresAt < b then Left(limit, w.value.count) + limit
    else Left(limit, w.value.count)
  }

  lemma SortedTail(times: seq<int>)
    requires Sorted(times) && |times| > 0
    ensures Sorted(times[1..]) && forall i :: 0 <= i < |times[1..]| ==> times[0] <= times[1..][i]
  {
    assert forall i :: 0 <= i < |times[1..]| ==> times[1..][i] == times[i + 1];
  }

  lemma {:induction false} NothingLate(w: Option<Window>, times: seq<int>, limit: nat, window: int, a: int, b: int)
    requires forall i :: 0 <= i < |times| ==> times[i] >= b
    ensures AllowedIn(w, times, limit, window, a, b) == 0
    decreases |times|
  {
    if |times| != 0 {
      assert forall i :: 0 <= i < |times[1..]| ==> times[1..][i] == times[i + 1];
      NothingLate(Some(Hit(At(w, times[0]), times[0], window)), times[1..], limit, window, a, b);
    }
  }

  lemma {:induction false} WithinPotential(w: Option<Window>, times: seq<int>, limit: nat, window: int, a: int)
    requires window > 0 && Sorted(times) && Sound(w)
    ensures AllowedIn(w, times, limit, window, a, a + window) <= Potential(w, limit, a, a + window)
    decreases |times|
  {
    if |times| != 0 {
      var b, t := a + window, times[0];
      SortedTail(times);
      if t >= b {
        NothingLate(w, times, limit, window, a, b);
      } else {
        WithinPotential(Some(Hit(At(w, t), t, window)), times[1..], limit, window, a);
      }
    }
  }

  /**
   Sliding bound: in any trace on one key, every half-open interval as long as the window
   holds at most 2 * limit - 1 allowed requests.
   */
  lemma SlidingBound(w: Option<Window>, times: seq<int>, limit: nat, window: int, a: int)
    requires window > 0 && Sorted(times) && Sound(w)
    ensures AllowedIn(w, times, limit, window, a, a + window) <= if limit == 0 then 0 else 2 * limit - 1
  {
    WithinPotential(w, times, limit, window, a);
  }

  /** One window: of the n requests before it ends, exactly the first `limit` are allowed. */
  lemma {:induction false} WindowExactly(w: Window, times: seq<int>, limit: nat, window: int, a: int)
    requires Sorted(times) && forall i :: 0 <= i < |times| ==> a <= times[i] < w.expiresAt
    ensures AllowedIn(Some(w), times, limit, window, a, w.expiresAt) ==
            if |times| < Left(limit, w.count) then |times| else Left(limit, w.count)
    decreases |times|
  {
    if |times| != 0 {
      SortedTail(times);
      assert forall i :: 0 <= i < |times[1..]| ==> times[1..][i] == times[i + 1];
      WindowExactly(w.(count := w.count + 1), times[1..], limit, window, a);
    }
  }

  /** Request by request, which ones are allowed. */
  function Decisions(w: Option<Window>, times: seq<int>, limit: nat, window: int): (r: seq<bool>)
    ensures |r| == |times|
    decreases |times|
  {
    if |times| == 0 then []
    else
      [Allows(w, times[0], limit)] +
      Decisions(Some(Hit(At(w, times[0]), times[0], window)), times[1..], limit, window)
  }

  /** Within a live window the first requests are allowed, as many as the limit leaves, and no later one. */
  lemma {:induction false} FirstAreAllowed(w: Window, times: seq<int>, limit: nat, window: int)
    requires forall i :: 0 <= i < |times| ==> times[i] < w.expiresAt
    ensures forall i :: 0 <= i < |times| ==> (Decisions(Some(w), times, limit, window)[i] <==> i < Left(limit, w.count))
    decreases |times|
  {
    if |times| != 0 {
      assert forall i :: 0 <= i < |times[1..]| ==> times[1..][i] == times[i + 1];
      FirstAreAllowed(w.(count := w.count + 1), times[1..], limit, window);
    }
  }

  /** The next request opens a window: the key is absent or its window is over. */
  predicate Opens(w: Option<Window>, now: int) {
    At(w, now).None?
  }

  lemma FreshWindowExactly(w: Option<Window>, times: seq<int>, limit: nat, window: int)
    requires window > 0 && |times| > 0 && Sorted(times) && Opens(w, times[0])
    requires times[|times| - 1] < times[0] + window
    ensures AllowedIn(w, times, limit, window, times[0], times[0] + window) ==
            if |times| < limit then |times| else limit
  {
    SortedTail(times);
    WindowExactly(Window(1, times[0] + window), times[1..], limit, window, times[0]);
  }

  /** From any request that opens a window until the window closes at most `limit` are allowed. */
  lemma WindowBound(w: Option<Window>, times: seq<int>, limit: nat, window: int)
    requires window > 0 && |times| > 0 && Sorted(times) && Opens(w, times[0])
    ensures AllowedIn(w, times, limit, window, times[0], times[0] + window) <= limit
  {
    SortedTail(times);
    WithinPotential(Some(Window(1, times[0] + window)), times[1..], limit, window, times[0]);
  }

  // ----- the bound is reached -----

  function Times(t: int, n: nat): (r: seq<int>)
    ensures |r| == n && forall i :: 0 <= i < n ==> r[i] == t
  {
    seq(n, i => t)
  }

  lemma {:induction false} BurstInWindow(w: Window, t: int, n: nat, rest: seq<int>, limit: nat, window: int, a: int,
      b: int)
    requires a <= t < b && t < w.expiresAt && w.count + n <= limit
    ensures AllowedIn(Some(w), Times(t, n) + rest, limit, window, a, b) ==
            n + AllowedIn(Some(w.(count := w.count + n)), rest, limit, window, a, b)
    decreases n
  {
    if n == 0 {
      assert Times(t, 0) + rest == rest;
    } else {
      assert (Times(t, n) + rest)[1..] == Times(t, n - 1) + rest;
      BurstInWindow(w.(count := w.count + 1), t, n - 1, rest, limit, window, a, b);
    }
  }

  lemma BurstInFreshWindow(w: Window, t: int, n: nat, limit: nat, window: int, a: int, b: int)
    requires a <= t < b && w.expiresAt <= t && window > 0 && 1 <= n <= limit
    ensures AllowedIn(Some(w), Times(t, n), limit, window, a, b) == n
  {
    var next := Window(1, t + window);
    assert Times(t, n)[1..] == Times(t, n - 1) + [];
    BurstInWindow(next, t, n - 1, [], limit, window, a, b);
    assert AllowedIn(Some(w), Times(t, n), limit, window, a, b) ==
           1 + AllowedIn(Some(next), Times(t, n - 1) + [], limit, window, a, b);
  }

  lemma OpeningHit(rest: seq<int>, limit: nat, window: int, a: int, b: int)
    requires 0 < a
    ensures AllowedIn(None, [0] + rest, limit, window, a, b) ==
            AllowedIn(Some(Window(1, window)), rest, limit, window, a, b)
  {
    assert ([0] + rest)[1..] == rest;
  }

  function Bursts(limit: nat, window: int): seq<int>
    requires limit >= 1
  {
    [0] + (Times(window - 1, limit - 1) + Times(window, limit))
  }

  /**
   A hit, a burst just before the window ends and a burst just after: 2 * limit - 1 allowed within one window's length.
   */
  lemma SlidingBoundIsReached(limit: nat, window: int)
    requires limit >= 1 && window >= 2
    ensures Sorted(Bursts(limit, window))
    ensures AllowedIn(None, Bursts(limit, window), limit, window, window - 1, window - 1 + window) == 2 * limit - 1
  {
    var a, b := window - 1, window - 1 + window;
    var late := Times(window, limit);
    OpeningHit(Times(window - 1, limit - 1) + late, limit, window, a, b);
    BurstInWindow(Window(1, window), window - 1, limit - 1, late, limit, window, a, b);
    BurstInFreshWindow(Window(limit, window), window, limit, limit, window, a, b);
  }

  // ----- assessBotRiskForLogin -----

  datatype Level = Low | Medium | High

  datatype Endpoint = LoginEndpoint | GoogleLoginEndpoint

  datatype Attempt = Attempt(at: int, endpoint: Endpoint, email: Option<string>, ip: Option<string>,
      userAgent: Option<string>)

  /** `watermark` is floor(threshold * percent / 100). */
  datatype Config = Config(threshold: nat, window: int, watermark: int)

  function EndpointName(e: Endpoint): string {
    if e == LoginEndpoint then "login" else "google_login"
  }

  function IpKey(x: Attempt): string {
    "bot-risk:" + EndpointName(x.endpoint) + ":ip:" + (if x.ip.Some? then x.ip.value else "unknown")
  }

  function EmailKey(x: Attempt): string
    requires x.email.Some?
  {
    "bot-risk:" + EndpointName(x.endpoint) + ":email:" + x.email.value
  }

  predicate Blank(s: string) {
    forall i :: 0 <= i < |s| ==> IsSpace(s[i])
  }

  predicate HasEmail(x: Attempt) {
    x.email.Some? && x.email.value != ""
  }

  predicate NoAgent(x: Attempt) {
    x.userAgent.None? || Blank(x.userAgent.value)
  }

  /** The store after the check and the level it reports. */
  function Assess(store: Store, x: Attempt, c: Config): (Level, Store) {
    var ip := Verdict(store, "rl:" + IpKey(x), c.threshold, x.at);
    var s1 := Consumed(store, "rl:" + IpKey(x), x.at, c.window);
    if !ip.allowed then (High, s1)
    else if NoAgent(x) then (Medium, s1)
    else if HasEmail(x) then
      var email := Verdict(s1, "rl:" + EmailKey(x), c.threshold, x.at);
      var s2 := Consumed(s1, "rl:" + EmailKey(x), x.at, c.window);
      if !email.allowed then (High, s2)
      else if email.remaining <= c.watermark || ip.remaining <= c.watermark then (Medium, s2)
      else (Low, s2)
    else if ip.remaining <= c.watermark then (Medium, s1)
    else (Low, s1)
  }

  method AssessBotRiskForLogin(limiter: Limiter, x: Attempt, c: Config) returns (level: Level)
    modifies limiter`store
    ensures (level, limiter.store) == Assess(old(limiter.store), x, c)
  {
    var ipRate := limiter.Consume(IpKey(x), c.threshold, c.window, x.at);
    if !ipRate.allowed {
      return High;
    }
    if NoAgent(x) {
      return Medium;
    }
    if HasEmail(x) {
      var emailRate := limiter.Consume(EmailKey(x), c.threshold, c.window, x.at);
      if !emailRate.allowed {
        return High;
      }
      if emailRate.remaining <= c.watermark || ipRate.remaining <= c.watermark {
        return Medium;
      }
      return Low;
    }
    if ipRate.remaining <= c.watermark {
      return Medium;
    }
    return Low;
  }

  lemma LoginLiterals()
    ensures "bot-risk:" + "login" + ":ip:" == "bot-risk:login:ip:"
    ensures "bot-risk:" + "login" + ":email:" == "bot-risk:login:email:"
  {
  }

  lemma GoogleLiterals()
    ensures "bot-risk:" + "google_login" + ":ip:" == "bot-risk:google_login:ip:"
    ensures "bot-risk:" + "google_login" + ":email:" == "bot-risk:google_login:email:"
  {
  }

  /** The keys of the two counters of an attempt. */
  lemma CounterNames(x: Attempt)
    ensures var ip := match x.ip case Some(ip) => ip case None => "unknown";
            IpKey(x) == match x.endpoint
                        case LoginEndpoint => "bot-risk:login:ip:" + ip
                        case GoogleLoginEndpoint => "bot-risk:google_login:ip:" + ip
    ensures x.email.Some? ==>
              EmailKey(x) == match x.endpoint
                             case LoginEndpoint => "bot-risk:login:email:" + x.email.value
                             case GoogleLoginEndpoint => "bot-risk:google_login:email:" + x.email.value
  {
    LoginLiterals();
    GoogleLiterals();
  }

  /** The hits on a counter in its live window, this one included. */
  function Nth(store: Store, key: string, now: int): nat {
    if key in store && now < store[key].expiresAt then store[key].count + 1 else 1
  }

  lemma {:induction false} TrimmedAway(s: string)
    ensures |TrimStart(s)| == 0 <==> Blank(s)
    ensures |TrimStart(s)| != 0 ==> !IsSpace(TrimStart(s)[0])
  {
    if |s| != 0 && IsSpace(s[0]) {
      TrimmedAway(s[1..]);
      assert forall i :: 0 <= i < |s[1..]| ==> s[1..][i] == s[i + 1];
      assert Blank(s[1..]) ==> forall i :: 0 < i < |s| ==> s[i] == s[1..][i - 1];
    }
  }

  lemma {:induction false} EndKeepsStart(s: string)
    requires |s| != 0 && !IsSpace(s[0])
    ensures |TrimEnd(s)| != 0
  {
    if IsSpace(s[|s| - 1]) {
      EndKeepsStart(s[..|s| - 1]);
    }
  }

  lemma BlankIsTrimmedAway(s: string)
    ensures Blank(s) <==> Trim(s) == ""
  {
    TrimmedAway(s);
    if |TrimStart(s)| != 0 {
      EndKeepsStart(TrimStart(s));
    }
  }

  /**
   The level of an attempt, from its counters: high exactly when a counter consulted is over the threshold; low exactly
   when a user agent is present and every counter consulted leaves more than the watermark.
   */
  lemma LevelExactly(store: Store, x: Attempt, c: Config)
    ensures var level := Assess(store, x, c).0;
            var ip := Nth(store, "rl:" + IpKey(x), x.at);
            var hasAgent := x.userAgent.Some? && Trim(x.userAgent.value) != "";
            var hasEmail := x.email.Some? && |x.email.value| > 0;
            var email := if x.email.Some? then Nth(store, "rl:" + EmailKey(x), x.at) else 0;
            && (level == High <==> ip > c.threshold || (hasAgent && hasEmail && email > c.threshold))
            && (level == Low <==>
                  && hasAgent && ip <= c.threshold && c.watermark < c.threshold - ip
                  && (hasEmail ==> email <= c.threshold && c.watermark < c.threshold - email))
  {
    if x.userAgent.Some? {
      BlankIsTrimmedAway(x.userAgent.value);
    }
    if x.email.Some? {
      CountersDiffer(x, x);
      SameSuffix(EmailKey(x), IpKey(x));
    }
    hide IpKey, EmailKey, Trim, Blank;
  }

  /** Attempts counted against the given IP counter, inside [a, b), that are not rated high. */
  function NotHighIn(store: Store, xs: seq<Attempt>, c: Config, key: string, a: int, b: int): nat
    decreases |xs|
  {
    if |xs| == 0 then 0
    else
      var r := Assess(store, xs[0], c);
      (if IpKey(xs[0]) == key && a <= xs[0].at < b && r.0 != High then 1 else 0)
      + NotHighIn(r.1, xs[1..], c, key, a, b)
  }

  /** When the attempts counted against this IP counter arrive. */
  function TimesOf(xs: seq<Attempt>, key: string): seq<int> {
    if |xs| == 0 then []
    else (if IpKey(xs[0]) == key then [xs[0].at] else []) + TimesOf(xs[1..], key)
  }

  predicate InOrder(xs: seq<Attempt>) {
    forall i, j :: 0 <= i < j < |xs| ==> xs[i].at <= xs[j].at
  }

  /** No e-mail counter is an IP counter. */
  lemma CountersDiffer(x: Attempt, y: Attempt)
    requires x.email.Some?
    ensures EmailKey(x) != IpKey(y)
  {
    var e, p := EmailKey(x), IpKey(y);
    var n := |EndpointName(x.endpoint)|;
    if x.endpoint == y.endpoint {
      assert e[9 + n] == ':' && e[10 + n] == 'e';
      assert p[10 + n] == 'i';
    } else {
      assert e[9] == EndpointName(x.endpoint)[0];
      assert p[9] == EndpointName(y.endpoint)[0];
    }
  }

  lemma SameSuffix(a: string, b: string)
    ensures "rl:" + a == "rl:" + b <==> a == b
  {
    assert ("rl:" + a)[3..] == a;
    assert ("rl:" + b)[3..] == b;
  }

  function Slot(store: Store, key: string): Option<Window> {
    if "rl:" + key in store then Some(store["rl:" + key]) else None
  }

  /** An attempt moves its own IP counter by one hit and leaves every other IP counter alone. */
  lemma AssessMovesOneCounter(store: Store, x: Attempt, y: Attempt, c: Config)
    ensures var s := Assess(store, x, c).1;
            Slot(s, IpKey(y)) == if IpKey(x) == IpKey(y) then Some(Hit(At(Slot(store, IpKey(y)), x.at), x.at, c.window))
                                 else Slot(store, IpKey(y))
    ensures Assess(store, x, c).0 != High ==> Allows(Slot(store, IpKey(x)), x.at, c.threshold)
  {
    SameSuffix(IpKey(x), IpKey(y));
    if x.email.Some? {
      CountersDiffer(x, x);
      CountersDiffer(x, y);
      SameSuffix(EmailKey(x), IpKey(y));
      SameSuffix(EmailKey(x), IpKey(x));
    }
  }

  lemma {:induction false} NotHighAreAllowed(store: Store, xs: seq<Attempt>, c: Config, y: Attempt, a: int, b: int)
    ensures NotHighIn(store, xs, c, IpKey(y), a, b) <=
            AllowedIn(Slot(store, IpKey(y)), TimesOf(xs, IpKey(y)), c.threshold, c.window, a, b)
    decreases |xs|
  {
    if |xs| != 0 {
      var x := xs[0];
      AssessMovesOneCounter(store, x, y, c);
      NotHighAreAllowed(Assess(store, x, c).1, xs[1..], c, y, a, b);
      if IpKey(x) == IpKey(y) {
        assert ([x.at] + TimesOf(xs[1..], IpKey(y)))[1..] == TimesOf(xs[1..], IpKey(y));
      } else {
        assert TimesOf(xs, IpKey(y)) == TimesOf(xs[1..], IpKey(y));
      }
    }
  }

  lemma {:induction false} TimesSorted(xs: seq<Attempt>, key: string)
    requires InOrder(xs)
    ensures Sorted(TimesOf(xs, key))
    ensures |xs| > 0 ==> forall i :: 0 <= i < |TimesOf(xs, key)| ==> xs[0].at <= TimesOf(xs, key)[i]
  {
    if |xs| != 0 {
      var t := xs[1..];
      assert forall i :: 0 <= i < |t| ==> t[i] == xs[i + 1];
      TimesSorted(t, key);
      assert |t| > 0 ==> xs[0].at <= t[0].at;
    }
  }

  /** Every counter in the store has been hit. */
  predicate SoundStore(store: Store) {
    forall key :: key in store ==> store[key].count >= 1
  }

  /**
   From any store, whatever e-mails, agents, endpoints and other addresses are mixed in, within any stretch as long as
   the window fewer than twice the threshold of attempts counted against one address escape the level "high".
   */
  lemma BotRiskBound(store: Store, xs: seq<Attempt>, c: Config, y: Attempt, a: int)
    requires SoundStore(store) && InOrder(xs) && c.window > 0
    ensures NotHighIn(store, xs, c, IpKey(y), a, a + c.window) <= if c.threshold == 0 then 0 else 2 * c.threshold - 1
  {
    hide NotHighIn, AllowedIn, TimesOf, IpKey, InOrder, Sorted;
    NotHighAreAllowed(store, xs, c, y, a, a + c.window);
    TimesSorted(xs, IpKey(y));
    SlidingBound(Slot(store, IpKey(y)), TimesOf(xs, IpKey(y)), c.threshold, c.window, a);
  }

  lemma FirstTime(xs: seq<Attempt>, key: string)
    requires |xs| > 0 && IpKey(xs[0]) == key
    ensures |TimesOf(xs, key)| > 0 && TimesOf(xs, key)[0] == xs[0].at
  {
  }

  /** Counted from any attempt that opens its address's window, at most the threshold escape "high" until it closes. */
  lemma BotRiskPerWindow(store: Store, xs: seq<Attempt>, c: Config)
    requires |xs| > 0 && InOrder(xs) && c.window > 0 && Opens(Slot(store, IpKey(xs[0])), xs[0].at)
    ensures NotHighIn(store, xs, c, IpKey(xs[0]), xs[0].at, xs[0].at + c.window) <= c.threshold
  {
    var y := xs[0];
    NotHighAreAllowed(store, xs, c, y, y.at, y.at + c.window);
    TimesSorted(xs, IpKey(y));
    FirstTime(xs, IpKey(y));
    WindowBound(Slot(store, IpKey(y)), TimesOf(xs, IpKey(y)), c.threshold, c.window);
  }
}
