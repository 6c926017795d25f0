/**
 * The part of HTTP the core looks at: request methods, the response statuses
 * it produces, and a request's header list with Rocket's `get_one` lookup
 * (header names compare without regard to ASCII case; the first value wins).
 */
module Http {
  import opened Wrappers

  datatype Method = Get | Put | Post | Delete | Options | Head | Trace | Connect | Patch

  datatype Status = Ok | Created | Unauthorized | NotFound | InternalServerError

  /** The status line's numeric code. */
  function Code(s: Status): (c: nat)
    ensures 200 <= c < 600
    ensures c < 300 <==> s == Ok || s == Created
  {
    match s
    case Ok => 200
    case Created => 201
    case Unauthorized => 401
    case NotFound => 404
    case InternalServerError => 500
  }

  datatype Header = Header(name: string, value: string)

  function Lower(c: char): char
  {
    if 'A' <= c <= 'Z' then (c as int + 32) as char else c
  }

  /** Header names are compared without regard to ASCII case. */
  predicate NameEq(a: string, b: string)
  {
    |a| == |b| && forall i :: 0 <= i < |a| ==> Lower(a[i]) == Lower(b[i])
  }

  /** `HeaderMap::get_one`: the value of the first header called `name`, if any. */
  function GetOne(hs: seq<Header>, name: string): (r: Option<string>)
    ensures r.None? <==> forall i :: 0 <= i < |hs| ==> !NameEq(hs[i].name, name)
    ensures r.Some? ==>
              exists i :: 0 <= i < |hs| && NameEq(hs[i].name, name) && hs[i].value == r.value &&
                          forall j :: 0 <= j < i ==> !NameEq(hs[j].name, name)
  {
    if hs == [] then None
    else if NameEq(hs[0].name, name) then Some(hs[0].value)
    else
      var r := GetOne(hs[1..], name);
      assert forall i :: 1 <= i < |hs| ==> hs[i] == hs[1..][i - 1];
      if r.Some? then
        var i :| 0 <= i < |hs[1..]| && NameEq(hs[1..][i].name, name) && hs[1..][i].value == r.value &&
                 forall j :: 0 <= j < i ==> !NameEq(hs[1..][j].name, name);
        assert NameEq(hs[i + 1].name, name) && hs[i + 1].value == r.value;
        r
      else r
  }

  /** Headers after the first one called `name` are never looked at. */
  lemma {:induction false} GetOneFirstOnly(hs: seq<Header>, more: seq<Header>, name: string)
    requires GetOne(hs, name).Some?
    ensures GetOne(hs + more, name) == GetOne(hs, name)
  {
    if !NameEq(hs[0].name, name) {
      assert (hs + more)[1..] == hs[1..] + more;
      GetOneFirstOnly(hs[1..], more, name);
    }
  }

  /** A header written with different capitalisation is found all the same. */
  lemma GetOneIgnoresCase(value: string)
    ensures GetOne([Header("X-Api-Key", value)], "x-api-key") == Some(value)
  {
    assert NameEq("X-Api-Key", "x-api-key") by {
      assert Lower('X') == 'x' && Lower('A') == 'a' && Lower('K') == 'k';
    }
  }
}
