/** The pipe-delimited keys of the router's metrics. */
module MetricsKeys {
  import opened Decimal
  import opened Sequences

  const PIPE := '|'

  predicate PipeFree(s: string) { PIPE !in s }

  /** strconv.Itoa. */
  function Itoa(n: int): string {
    if n < 0 then "-" + Show(-n) else Show(n)
  }

  function ReqKey(verb: string, host: string, status: int): string {
    verb + "|" + host + "|" + Itoa(status)
  }

  function DurKey(verb: string, host: string): string {
    verb + "|" + host
  }

  function Pipes(s: string): nat {
    if s == "" then 0 else Pipes(s[..|s| - 1]) + if s[|s| - 1] == PIPE then 1 else 0
  }

  lemma {:induction false} PipesConcat(a: string, b: string)
    ensures Pipes(a + b) == Pipes(a) + Pipes(b)
  {
    if b == "" {
      assert a + b == a;
    } else {
      assert (a + b)[..|a + b| - 1] == a + b[..|b| - 1];
      PipesConcat(a, b[..|b| - 1]);
    }
  }

  lemma {:induction false} PipesOfPipeFree(s: string)
    ensures Pipes(s) == 0 <==> PipeFree(s)
  {
    if s != "" {
      PipesOfPipeFree(s[..|s| - 1]);
      assert s == s[..|s| - 1] + [s[|s| - 1]];
    }
  }

  lemma ItoaIsPipeFree(n: int)
    ensures PipeFree(Itoa(n)) && Itoa(n) != ""
  {
    var s := if n < 0 then Show(-n) else Show(n);
    assert PIPE !in s;
  }

  lemma PipesOfKey(a: string, b: string)
    ensures Pipes(a + "|" + b) == Pipes(a) + 1 + Pipes(b)
  {
    assert "|"[..0] == "";
    assert Pipes("|") == 1;
    PipesConcat(a + "|", b);
    PipesConcat(a, "|");
  }

  /** A key made of pipe-free parts is made of nothing else, pipes or not. */
  lemma DurKeyIsOwn(verb: string, host: string, verb2: string, host2: string)
    requires PipeFree(verb) && PipeFree(host)
    ensures DurKey(verb2, host2) == DurKey(verb, host) <==> verb2 == verb && host2 == host
  {
    if DurKey(verb2, host2) == DurKey(verb, host) {
      PipesOfKey(verb, host);
      PipesOfKey(verb2, host2);
      PipesOfPipeFree(verb);
      PipesOfPipeFree(host);
      PipesOfPipeFree(verb2);
      SplitIsUnique(PIPE, verb2, host2, verb, host);
    }
  }

  lemma ReqKeyIsOwn(verb: string, host: string, status: int, verb2: string, host2: string, status2: int)
    requires PipeFree(verb) && PipeFree(host)
    ensures ReqKey(verb2, host2, status2) == ReqKey(verb, host, status)
       <==> verb2 == verb && host2 == host && status2 == status
  {
    if ReqKey(verb2, host2, status2) == ReqKey(verb, host, status) {
      ReqKeyTellsParts(verb, host, status, verb2, host2, status2);
    }
  }

  lemma ReqKeyTellsParts(verb: string, host: string, status: int, verb2: string, host2: string, status2: int)
    requires PipeFree(verb) && PipeFree(host) && ReqKey(verb2, host2, status2) == ReqKey(verb, host, status)
    ensures verb2 == verb && host2 == host && status2 == status
  {
    hide Itoa;
    var s, s2 := Itoa(status), Itoa(status2);
    ItoaIsPipeFree(status);
    ItoaIsPipeFree(status2);
    PipesOfKey(verb + "|" + host, s);
    PipesOfKey(verb2 + "|" + host2, s2);
    PipesOfKey(verb, host);
    PipesOfKey(verb2, host2);
    PipesOfPipeFree(verb);
    PipesOfPipeFree(host);
    PipesOfPipeFree(verb2);
    PipesOfPipeFree(host2);
    PipesOfPipeFree(s);
    PipesOfPipeFree(s2);
    Reassociate(verb, host, s);
    Reassociate(verb2, host2, s2);
    SplitIsUnique(PIPE, verb2, host2 + "|" + s2, verb, host + "|" + s);
    SplitIsUnique(PIPE, host2, s2, host, s);
    ItoaIsInjective(status, status2);
  }

  lemma ItoaIsInjective(m: int, n: int)
    ensures Itoa(m) == Itoa(n) <==> m == n
  {
    hide Show, Value;
    var i, j := if m < 0 then -m else m, if n < 0 then -n else n;
    ValueOfShow(i);
    ValueOfShow(j);
    assert m < 0 ==> Itoa(m)[0] == '-' && Itoa(m)[1..] == Show(i);
    assert n < 0 ==> Itoa(n)[0] == '-' && Itoa(n)[1..] == Show(j);
    assert IsDigit(Show(i)[0]) && IsDigit(Show(j)[0]);
  }

  /** A status such as 404 is written in decimal. */
  lemma KnownStatus()
    ensures Itoa(404) == "404"
  {
    assert Digits(0) == "";
    assert Digits(4) == Digits(0) + "4";
    assert Digits(40) == Digits(4) + "0";
    assert Digits(404) == Digits(40) + "4";
  }

  lemma Reassociate(a: string, b: string, c: string)
    ensures a + "|" + b + "|" + c == a + "|" + (b + "|" + c)
  {}

  // ---------------------------------------------------------------------------
  // Splitting
  // ---------------------------------------------------------------------------

  /** The position of the first pipe from `start` on, or the end. */
  method NextPipe(key: string, start: nat) returns (end: nat)
    requires start <= |key|
    ensures start <= end <= |key| && PipeFree(key[start..end]) && (end < |key| ==> key[end] == PIPE)
  {
    end := start;
    while end < |key| && key[end] != PIPE
      invariant start <= end <= |key| && PipeFree(key[start..end])
    {
      end := end + 1;
    }
  }

  /** At most n parts; the last one keeps any further pipes. */
  function Parts(key: string, n: nat): seq<string>
    requires n >= 1
    decreases n
  {
    if n == 1 || key == "" then [key]
    else
      var end := FirstPipeAt(key);
      if end == |key| then [key] else [key[..end]] + Parts(key[end + 1..], n - 1)
  }

  function FirstPipeAt(key: string): (end: nat)
    ensures end <= |key| && (end < |key| ==> key[end] == PIPE)
    ensures forall k | 0 <= k < end :: key[k] != PIPE
  {
    if key == "" || key[0] == PIPE then 0 else 1 + FirstPipeAt(key[1..])
  }

  lemma FirstPipeAtIs(key: string, end: nat)
    requires end <= |key| && PipeFree(key[..end]) && (end < |key| ==> key[end] == PIPE)
    ensures FirstPipeAt(key) == end
  {
    assert forall k | 0 <= k < end :: key[k] == key[..end][k] && key[..end][k] in key[..end];
  }

  /** One turn of the splitting loop, at `start`, with the next pipe or the end at `end`. */
  lemma PartsStep(key: string, start: nat, end: nat, n: nat)
    requires start <= end <= |key| && start < |key| && n > 1
    requires PipeFree(key[start..end]) && (end < |key| ==> key[end] == PIPE)
    ensures Parts(key[start..], n) == [key[start..end]] + if end < |key| then Parts(key[end + 1..], n - 1) else []
  {
    hide PipeFree, FirstPipeAt;
    var s := key[start..];
    assert s[..end - start] == key[start..end];
    FirstPipeAtIs(s, end - start);
    if end < |key| {
      assert s[end - start + 1..] == key[end + 1..];
    } else {
      assert key[start..end] == s;
    }
  }

  method SplitMetricsKey(key: string, n: nat) returns (parts: seq<string>)
    requires n >= 1
    ensures parts == Parts(key, n) && AreParts(parts, key, n)
  {
    hide Parts, PipeFree, FirstPipeAt, AreParts;
    PartsAre(key, n);
    parts := [];
    var start, i := 0, 0;
    assert key[0..] == key;
    while i < n - 1 && start < |key|
      invariant 0 <= i <= n - 1 && start <= |key| + 1
      invariant Parts(key, n) == parts + if start <= |key| then Parts(key[start..], n - i) else []
    {
      var end := NextPipe(key, start);
      PartsStep(key, start, end, n - i);
      Shift(parts, key[start..end], if end < |key| then Parts(key[end + 1..], n - i - 1) else []);
      parts := parts + [key[start..end]];
      start := end + 1;
      i := i + 1;
    }
    if start <= |key| {
      LastPart(key[start..], n - i);
      parts := parts + [key[start..]];
    }
  }

  lemma Shift(a: seq<string>, x: string, b: seq<string>)
    ensures a + ([x] + b) == (a + [x]) + b
  {}

  lemma LastPart(key: string, n: nat)
    requires n == 1 || (n > 1 && key == "")
    ensures Parts(key, n) == [key]
  {}

  function JoinParts(parts: seq<string>): string {
    if parts == [] then "" else if |parts| == 1 then parts[0] else parts[0] + "|" + JoinParts(parts[1..])
  }

  /**
   The parts are the only ones that join to the key, at most n of them, with pipes in the last alone and
   there only if the others have used up n.
   */
  predicate AreParts(parts: seq<string>, key: string, n: nat) {
    && 1 <= |parts| <= n && JoinParts(parts) == key
    && (forall i | 0 <= i < |parts| - 1 :: PipeFree(parts[i]))
    && (|parts| < n ==> PipeFree(parts[|parts| - 1]))
  }

  lemma {:induction false} PartsExactly(key: string, n: nat, parts: seq<string>)
    requires n >= 1
    ensures parts == Parts(key, n) <==> AreParts(parts, key, n)
    decreases n
  {
    PartsAre(key, n);
    if AreParts(parts, key, n) {
      PartsAreUnique(key, n, parts, Parts(key, n));
    }
  }

  lemma {:induction false} PartsAre(key: string, n: nat)
    requires n >= 1
    ensures AreParts(Parts(key, n), key, n)
    decreases n
  {
    hide PipeFree, AreParts, FirstPipeAt;
    var e := FirstPipeAt(key);
    assert PipeFree(key[..e]) by {
      FrontIsPipeFree(key, e);
    }
    assert key[..|key|] == key;
    if n > 1 && e < |key| {
      var rest := Parts(key[e + 1..], n - 1);
      PartsAre(key[e + 1..], n - 1);
      assert key == key[..e] + "|" + key[e + 1..];
      PartInFront(key[..e], rest, key[e + 1..], n);
    } else {
      OnePart(key, n);
    }
  }

  lemma OnePart(key: string, n: nat)
    requires n >= 1 && (n == 1 || PipeFree(key))
    ensures AreParts([key], key, n)
  {}

  lemma PartInFront(first: string, rest: seq<string>, key: string, n: nat)
    requires n > 1 && PipeFree(first) && AreParts(rest, key, n - 1)
    ensures AreParts([first] + rest, first + "|" + key, n)
  {
    hide PipeFree;
    var parts := [first] + rest;
    assert parts[1..] == rest;
    assert forall i | 1 <= i < |parts| :: parts[i] == rest[i - 1];
  }

  lemma FrontIsPipeFree(key: string, e: nat)
    requires e == FirstPipeAt(key)
    ensures PipeFree(key[..e])
  {}

  lemma {:induction false} PartsAreUnique(key: string, n: nat, a: seq<string>, b: seq<string>)
    requires n >= 1 && AreParts(a, key, n) && AreParts(b, key, n)
    ensures a == b
    decreases n
  {
    if |a| == 1 || |b| == 1 {
      SinglePart(key, n, a, b);
      SinglePart(key, n, b, a);
    } else {
      SplitIsUnique(PIPE, a[0], JoinParts(a[1..]), b[0], JoinParts(b[1..]));
      PartsAreUnique(JoinParts(a[1..]), n - 1, a[1..], b[1..]);
      assert a == [a[0]] + a[1..] && b == [b[0]] + b[1..];
    }
  }

  lemma SinglePart(key: string, n: nat, a: seq<string>, b: seq<string>)
    requires AreParts(a, key, n) && AreParts(b, key, n) && |a| == 1
    ensures a == b
  {
    PipeInJoin(b);
    assert JoinParts(a) == a[0];
  }

  lemma PipeInJoin(parts: seq<string>)
    ensures |parts| > 1 ==> PIPE in JoinParts(parts)
  {
    if |parts| > 1 {
      assert JoinParts(parts)[|parts[0]|] == PIPE;
    }
  }

  /** The first part is what stands before the first written pipe exactly when that is pipe-free. */
  lemma FirstPart(a: string, b: string, n: nat)
    requires n > 1
    ensures |Parts(a + "|" + b, n)| > 0
    ensures Parts(a + "|" + b, n)[0] == a <==> PipeFree(a)
    ensures PipeFree(a) ==> Parts(a + "|" + b, n) == [a] + Parts(b, n - 1)
  {
    hide FirstPipeAt;
    PipeAt(a, b);
    var s := a + "|" + b;
    var e := FirstPipeAt(s);
    assert Parts(s, n) == [s[..e]] + Parts(s[e + 1..], n - 1);
  }

  /** Splitting undoes the request key exactly when neither the method nor the host contains a pipe. */
  lemma RequestKeySplits(verb: string, host: string, status: int)
    ensures Parts(ReqKey(verb, host, status), 3) == [verb, host, Itoa(status)]
       <==> PipeFree(verb) && PipeFree(host)
  {
    hide Parts, Itoa, PipeFree;
    var s := Itoa(status);
    Reassociate(verb, host, s);
    FirstPart(verb, host + "|" + s, 3);
    HostSplits(host, s);
    assert ([verb] + Parts(host + "|" + s, 2))[1..] == Parts(host + "|" + s, 2);
    assert [verb, host, s][1..] == [host, s] && [verb] + [host, s] == [verb, host, s];
  }

  lemma HostSplits(host: string, s: string)
    ensures Parts(host + "|" + s, 2) == [host, s] <==> PipeFree(host)
  {
    FirstPart(host, s, 2);
    assert [host] + Parts(s, 1) == [host, s];
  }

  lemma PipeAt(a: string, b: string)
    ensures var s := a + "|" + b;
            && s[..|a|] == a && s[|a|] == PIPE && s[|a| + 1..] == b
            && FirstPipeAt(s) <= |a| && (FirstPipeAt(s) == |a| <==> PipeFree(a))
  {
    var s := a + "|" + b;
    var e := FirstPipeAt(s);
    assert forall k | 0 <= k < |a| :: s[k] == a[k];
  }
}
