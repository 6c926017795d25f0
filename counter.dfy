/**
 * The "GET/POST Counter" fairing: two counters that every incoming request
 * passes through (`on_request`), and the `/api/counts` route that reports them
 * as `Get: <g>\nPost: <p>`.
 */
module CounterFairing {
  import opened Wrappers
  import opened Http
  import Decimal

  datatype Tally = Tally(get: nat, post: nat)

  /** What one request does to the counts: GET and POST are counted, every other method is not. */
  function Step(c: Tally, m: Method): Tally
  {
    if m == Get then c.(get := c.get + 1)
    else if m == Post then c.(post := c.post + 1)
    else c
  }

  /** The counts after a run of requests, in order. */
  function Run(c: Tally, ms: seq<Method>): Tally
    decreases |ms|
  {
    if ms == [] then c else Run(Step(c, ms[0]), ms[1..])
  }

  /** After any run, each counter has grown by the number of requests of its method, and by nothing else. */
  lemma {:induction false} RunCounts(c: Tally, ms: seq<Method>)
    ensures Run(c, ms) == Tally(c.get + multiset(ms)[Get], c.post + multiset(ms)[Post])
    decreases |ms|
  {
    if ms != [] {
      RunCounts(Step(c, ms[0]), ms[1..]);
      assert ms == [ms[0]] + ms[1..];
      assert multiset(ms) == multiset{ms[0]} + multiset(ms[1..]);
    }
  }

  /** The order of the requests does not matter. */
  lemma RunOrderIrrelevant(c: Tally, ms: seq<Method>, ns: seq<Method>)
    requires multiset(ms) == multiset(ns)
    ensures Run(c, ms) == Run(c, ns)
  {
    RunCounts(c, ms);
    RunCounts(c, ns);
  }

  /** The body of `GET /api/counts`. */
  function Report(c: Tally): (s: string)
    ensures |s| > 5 && s[..5] == "Get: "
  {
    "Get: " + Decimal.NatToString(c.get) + "\nPost: " + Decimal.NatToString(c.post)
  }

  /** The first position at or after `from` that holds `x`, or `|s|` when there is none. */
  function IndexOf(s: string, x: char, from: nat): (i: nat)
    requires from <= |s|
    ensures from <= i <= |s|
    ensures i < |s| ==> s[i] == x
    ensures forall j :: from <= j < i ==> s[j] != x
    decreases |s| - from
  {
    if from == |s| || s[from] == x then from else IndexOf(s, x, from + 1)
  }

  /** Reads a report back: the two counts, or `None` for text of any other shape. */
  function ParseReport(s: string): Option<Tally>
  {
    if |s| < 5 || s[..5] != "Get: " then None
    else
      var i := IndexOf(s, '\n', 5);
      if |s| < i + 7 || s[i..i + 7] != "\nPost: " then None
      else
        match Decimal.ParseNat(s[5..i])
        case None => None
        case Some(g) => (
          match Decimal.ParseNat(s[i + 7..])
          case None => None
          case Some(p) => Some(Tally(g, p)))
  }

  /** A report names both counts, so they can be read back from it. */
  lemma ParseReportOfReport(c: Tally)
    ensures ParseReport(Report(c)) == Some(c)
  {
    var g, p := Decimal.NatToString(c.get), Decimal.NatToString(c.post);
    var s := Report(c);
    var k := 5 + |g|;
    assert s[5..k] == g && s[k..k + 7] == "\nPost: " && s[k + 7..] == p;
    assert forall j :: 5 <= j < k ==> s[j] == g[j - 5];
    assert forall j :: 5 <= j < k ==> s[j] != '\n';
    assert s[k] == '\n';
    assert IndexOf(s, '\n', 5) == k;
    Decimal.ParseNatToString(c.get);
    Decimal.ParseNatToString(c.post);
  }

  /** A parser that accepts only reports: whatever it reads is the report of what it returns. */
  lemma ReportOfParseReport(s: string, c: Tally)
    requires ParseReport(s) == Some(c)
    ensures s == Report(c)
  {
    var i := IndexOf(s, '\n', 5);
    Decimal.NatToStringOfParseNat(s[5..i]);
    Decimal.NatToStringOfParseNat(s[i + 7..]);
    assert s == s[..5] + s[5..i] + s[i..i + 7] + s[i + 7..];
  }

  lemma ReportInjective(c: Tally, d: Tally)
    requires Report(c) == Report(d)
    ensures c == d
  {
    ParseReportOfReport(c);
    ParseReportOfReport(d);
  }

  /** The fairing's state: the two shared counters. */
  class Counter {
    var get: nat
    var post: nat

    function State(): Tally
      reads this
    {
      Tally(get, post)
    }

    /** `Counter::default()`: both counters start at zero. */
    constructor()
      ensures State() == Tally(0, 0)
    {
      get := 0;
      post := 0;
    }

    /** `on_request`: a GET bumps `get`, a POST bumps `post`, any other method changes nothing. */
    method OnRequest(m: Method)
      modifies this
      ensures State() == Step(old(State()), m)
      ensures m == Get ==> get == old(get) + 1 && post == old(post)
      ensures m == Post ==> post == old(post) + 1 && get == old(get)
      ensures m != Get && m != Post ==> get == old(get) && post == old(post)
    {
      if m == Get {
        get := get + 1;
      } else if m == Post {
        post := post + 1;
      }
    }

    /** The `counts` route. */
    function Counts(): (s: string)
      reads this
      ensures ParseReport(s) == Some(State())
    {
      ParseReportOfReport(State());
      Report(State())
    }
  }
}
