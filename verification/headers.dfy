/**
  The header map of a message: a PHP array with string keys, which is an
  ordered map.  Assigning to an existing key keeps its position; assigning
  to a new key appends it.  `array_filter` drops falsy values and keeps the
  order; the serialiser renders `Name: Value` lines joined by CRLF.
 */
module HeaderMap {
  import opened Wrappers
  import opened Php
  import opened Text

  datatype Header = Header(name: string, value: string)

  /** Entries in insertion order. */
  type Headers = seq<Header>

  /** The keys, in order. */
  function Names(h: Headers): (ns: seq<string>)
    ensures |ns| == |h|
    ensures forall i :: 0 <= i < |h| ==> ns[i] == h[i].name
  {
    if |h| == 0 then [] else [h[0].name] + Names(h[1..])
  }

  /** A PHP array never holds the same key twice. */
  predicate Unique(h: Headers)
  {
    forall i, j :: 0 <= i < j < |h| ==> h[i].name != h[j].name
  }

  /** `$h[$n]`, or `None` when the key is not set. */
  function Lookup(h: Headers, n: string): (r: Option<string>)
    ensures r.Some? <==> n in Names(h)
  {
    if |h| == 0 then None
    else if h[0].name == n then Some(h[0].value)
    else
      assert Names(h) == [h[0].name] + Names(h[1..]);
      Lookup(h[1..], n)
  }

  /** In a map with unique keys, the entry with key `n` is what `Lookup` finds. */
  lemma {:induction false} LookupUnique(h: Headers, i: nat)
    requires Unique(h) && i < |h|
    ensures Lookup(h, h[i].name) == Some(h[i].value)
  {
    if i > 0 {
      assert h[0].name != h[i].name;
      assert h[1..][i - 1] == h[i];
      LookupUnique(h[1..], i - 1);
    }
  }

  /** `$h[$n] = $v`: overwritten in place when the key is present, appended otherwise. */
  function Set(h: Headers, n: string, v: string): (r: Headers)
    ensures Names(r) == if n in Names(h) then Names(h) else Names(h) + [n]
    ensures forall i :: 0 <= i < |h| && h[i].name != n ==> r[i] == h[i]
    ensures Lookup(r, n) == Some(v)
  {
    if |h| == 0 then [Header(n, v)]
    else if h[0].name == n then
      var r := [Header(n, v)] + h[1..];
      assert Names(r) == [n] + Names(h[1..]);
      assert Names(h) == [n] + Names(h[1..]);
      r
    else
      var t := Set(h[1..], n, v);
      var r := [h[0]] + t;
      assert Names(r) == [h[0].name] + Names(t);
      assert Names(h) == [h[0].name] + Names(h[1..]);
      assert r[1..] == t;
      r
  }

  /** Assigning one key leaves every other key's value as it was. */
  lemma {:induction false} SetLookupOther(h: Headers, n: string, v: string, m: string)
    requires m != n
    ensures Lookup(Set(h, n, v), m) == Lookup(h, m)
  {
    if |h| > 0 && h[0].name != n {
      SetLookupOther(h[1..], n, v, m);
      assert Set(h, n, v)[1..] == Set(h[1..], n, v);
    }
  }

  /** Assignment keeps keys unique. */
  lemma SetUnique(h: Headers, n: string, v: string)
    requires Unique(h)
    ensures Unique(Set(h, n, v))
  {
    var r := Set(h, n, v);
    forall i, j | 0 <= i < j < |r|
      ensures r[i].name != r[j].name
    {
      assert Names(r)[i] == r[i].name && Names(r)[j] == r[j].name;
      if j < |h| {
        assert Names(h)[i] == h[i].name && Names(h)[j] == h[j].name;
      } else {
        assert Names(h)[i] == h[i].name;
      }
    }
  }

  /** The keys of `ns` not in `seen`, each once, in first-occurrence order. */
  function Fresh(seen: seq<string>, ns: seq<string>): seq<string>
    decreases |ns|
  {
    if |ns| == 0 then []
    else if ns[0] in seen then Fresh(seen, ns[1..])
    else [ns[0]] + Fresh(seen + [ns[0]], ns[1..])
  }

  /** The value the last update for `n` in `u` assigns, when there is one. */
  function LastValue(u: Headers, n: string): Option<string>
  {
    if |u| == 0 then None
    else if u[|u| - 1].name == n then Some(u[|u| - 1].value)
    else LastValue(u[..|u| - 1], n)
  }

  /** Assignments applied one after the other. */
  function SetAll(h: Headers, u: Headers): Headers
    decreases |u|
  {
    if |u| == 0 then h else SetAll(Set(h, u[0].name, u[0].value), u[1..])
  }

  /**
    After a run of assignments, the keys are the old keys in their old order
    followed by the newly assigned keys in first-assignment order.
   */
  lemma {:induction false} SetAllNames(h: Headers, u: Headers)
    ensures Names(SetAll(h, u)) == Names(h) + Fresh(Names(h), Names(u))
    decreases |u|
  {
    if |u| > 0 {
      var h1 := Set(h, u[0].name, u[0].value);
      assert Names(u) == [u[0].name] + Names(u[1..]);
      SetAllNames(h1, u[1..]);
      FreshStep(Names(h), u[0].name, Names(u[1..]));
    }
  }

  /** One step of `Fresh`: a seen key adds nothing, an unseen one joins the seen keys. */
  lemma FreshStep(seen: seq<string>, n: string, ns: seq<string>)
    ensures var seen' := if n in seen then seen else seen + [n];
            seen + Fresh(seen, [n] + ns) == seen' + Fresh(seen', ns)
  {
    assert ([n] + ns)[1..] == ns;
  }

  /** After a run of assignments, a key reads as its last assignment, or as before when never assigned. */
  lemma {:induction false} SetAllLookup(h: Headers, u: Headers, n: string)
    ensures Lookup(SetAll(h, u), n) == if LastValue(u, n).Some? then LastValue(u, n) else Lookup(h, n)
    decreases |u|
  {
    if |u| > 0 {
      var h1 := Set(h, u[0].name, u[0].value);
      SetAllLookup(h1, u[1..], n);
      LastValueCons(u, n);
      if u[0].name != n {
        SetLookupOther(h, u[0].name, u[0].value, n);
      }
    }
  }

  /** `LastValue` read from the front: the tail's verdict, or the head's when the tail never assigns. */
  lemma {:induction false} LastValueCons(u: Headers, n: string)
    requires |u| > 0
    ensures LastValue(u, n) == if LastValue(u[1..], n).Some? then LastValue(u[1..], n)
                               else if u[0].name == n then Some(u[0].value) else None
    decreases |u|
  {
    if |u| > 1 {
      assert u[1..][..|u[1..]| - 1] == u[..|u| - 1][1..];
      if u[|u| - 1].name != n {
        LastValueCons(u[..|u| - 1], n);
      }
    }
  }

  /** With unique keys, the last assignment for a key is its only one. */
  lemma {:induction false} LastValueUnique(u: Headers, i: nat)
    requires Unique(u) && i < |u|
    ensures LastValue(u, u[i].name) == Some(u[i].value)
    decreases |u|
  {
    if i < |u| - 1 {
      assert u[|u| - 1].name != u[i].name;
      var p := u[..|u| - 1];
      assert p[i] == u[i];
      assert Unique(p) by {
        forall x, y | 0 <= x < y < |p| ensures p[x].name != p[y].name {
          assert p[x] == u[x] && p[y] == u[y];
        }
      }
      LastValueUnique(p, i);
    }
  }

  /** A key that is never assigned has no last assignment. */
  lemma {:induction false} LastValueAbsent(u: Headers, n: string)
    requires n !in Names(u)
    ensures LastValue(u, n) == None
    decreases |u|
  {
    if |u| > 0 {
      assert Names(u)[|u| - 1] == u[|u| - 1].name;
      var p := u[..|u| - 1];
      assert n !in Names(p);
      LastValueAbsent(p, n);
    }
  }

  /** Keys of `seen` and of the fresh keys together. */
  lemma {:induction false} FreshMembers(seen: seq<string>, ns: seq<string>, x: string)
    ensures x in seen + Fresh(seen, ns) <==> x in seen || x in ns
    decreases |ns|
  {
    if |ns| > 0 {
      if ns[0] in seen {
        FreshMembers(seen, ns[1..], x);
      } else {
        FreshMembers(seen + [ns[0]], ns[1..], x);
        assert seen + Fresh(seen, ns) == (seen + [ns[0]]) + Fresh(seen + [ns[0]], ns[1..]);
      }
      assert ns == [ns[0]] + ns[1..];
    }
  }

  /** One more key at the end is fresh exactly when neither seen nor earlier. */
  lemma {:induction false} FreshSnoc(seen: seq<string>, ns: seq<string>, x: string)
    ensures Fresh(seen, ns + [x]) == Fresh(seen, ns) + (if x in seen || x in ns then [] else [x])
    decreases |ns|
  {
    if |ns| == 0 {
      assert ns + [x] == [x];
    } else {
      assert (ns + [x])[0] == ns[0];
      assert (ns + [x])[1..] == ns[1..] + [x];
      assert ns == [ns[0]] + ns[1..];
      if ns[0] in seen {
        FreshSnoc(seen, ns[1..], x);
      } else {
        FreshSnoc(seen + [ns[0]], ns[1..], x);
      }
    }
  }
  /** A run of assignments followed by one more: the keys gain the fresh ones in order. */
  lemma SetAllThenSetNames(h: Headers, u: Headers, n: string, v: string)
    ensures Names(Set(SetAll(h, u), n, v)) == Names(h) + Fresh(Names(h), Names(u) + [n])
  {
    var a, ns := SetAll(h, u), Names(h);
    SetAllNames(h, u);
    FreshSnoc(ns, Names(u), n);
    FreshMembers(ns, Names(u), n);
    if n in Names(a) {
      assert Fresh(ns, Names(u) + [n]) == Fresh(ns, Names(u));
    } else {
      assert Fresh(ns, Names(u) + [n]) == Fresh(ns, Names(u)) + [n];
      assert Names(Set(a, n, v)) == (ns + Fresh(ns, Names(u))) + [n];
    }
  }

  /** Assignments keep keys unique. */
  lemma {:induction false} SetAllUnique(h: Headers, u: Headers)
    requires Unique(h)
    ensures Unique(SetAll(h, u))
    decreases |u|
  {
    if |u| > 0 {
      SetUnique(h, u[0].name, u[0].value);
      SetAllUnique(Set(h, u[0].name, u[0].value), u[1..]);
    }
  }

  /** `array_filter`: the entries whose value is not falsy, in order. */
  function Filter(h: Headers): (r: Headers)
    ensures forall i :: 0 <= i < |r| ==> !Falsy(r[i].value)
    ensures forall e :: e in r <==> e in h && !Falsy(e.value)
  {
    if |h| == 0 then []
    else if Falsy(h[0].value) then Filter(h[1..])
    else [h[0]] + Filter(h[1..])
  }

  /** Filtering keeps the relative order of entries. */
  lemma {:induction false} FilterAppend(a: Headers, b: Headers)
    ensures Filter(a + b) == Filter(a) + Filter(b)
  {
    if |a| > 0 {
      assert (a + b)[0] == a[0];
      assert (a + b)[1..] == a[1..] + b;
      FilterAppend(a[1..], b);
    } else {
      assert a + b == b;
    }
  }

  /** A key survives the filter exactly when its value is not falsy, and keeps that value. */
  lemma {:induction false} FilterLookup(h: Headers, n: string)
    requires Unique(h)
    ensures Lookup(Filter(h), n) == if Lookup(h, n).Some? && !Falsy(Lookup(h, n).value) then Lookup(h, n) else None
  {
    if |h| > 0 {
      var t := h[1..];
      assert Unique(t) by {
        forall i, j | 0 <= i < j < |t| ensures t[i].name != t[j].name {
          assert t[i] == h[i + 1] && t[j] == h[j + 1];
        }
      }
      FilterLookup(t, n);
    }
  }

  /** One header as a wire line, without its line ending. */
  function Render(e: Header): string
  {
    e.name + ": " + e.value
  }

  /** Lines joined by CRLF, with no CRLF after the last one. */
  function JoinCrlf(ls: seq<string>): string
  {
    if |ls| == 0 then ""
    else if |ls| == 1 then ls[0]
    else ls[0] + "\r\n" + JoinCrlf(ls[1..])
  }

  /** Each entry rendered, in order. */
  function RenderAll(h: Headers): (ls: seq<string>)
    ensures |ls| == |h|
    ensures forall i :: 0 <= i < |h| ==> ls[i] == Render(h[i])
  {
    if |h| == 0 then [] else [Render(h[0])] + RenderAll(h[1..])
  }

  /** The header block handed to `mail`. */
  function Serialise(h: Headers): string
  {
    JoinCrlf(RenderAll(Filter(h)))
  }

  /** A header whose name and value hold no line feed. */
  predicate SingleLine(e: Header)
  {
    '\n' !in e.name && '\n' !in e.value
  }

  /** Lines joined by CRLF read back as those lines, each but the last ending in a carriage return. */
  lemma {:induction false} LinesOfJoinCrlf(ls: seq<string>)
    requires |ls| > 0
    requires forall i :: 0 <= i < |ls| ==> '\n' !in ls[i]
    ensures |Lines(JoinCrlf(ls))| == |ls|
    ensures forall i :: 0 <= i < |ls| - 1 ==> Lines(JoinCrlf(ls))[i] == ls[i] + "\r"
    ensures Lines(JoinCrlf(ls))[|ls| - 1] == ls[|ls| - 1]
  {
    if |ls| == 1 {
      LinesOfLine(ls[0]);
    } else {
      assert JoinCrlf(ls) == (ls[0] + "\r") + "\n" + JoinCrlf(ls[1..]);
      LinesOfJoin(ls[0] + "\r", JoinCrlf(ls[1..]));
      assert '\n' !in ls[0] + "\r";
      LinesOfLine(ls[0] + "\r");
      LinesOfJoinCrlf(ls[1..]);
    }
  }

  /**
    Read back by lines, the serialised block holds one line per header that
    survives the filter, in map order: `Name: Value` followed by a carriage
    return, except on the last line.  With every header filtered out the
    block is empty.
   */
  lemma SerialiseLines(h: Headers)
    requires forall i :: 0 <= i < |h| ==> SingleLine(h[i])
    ensures |Filter(h)| == 0 ==> Serialise(h) == ""
    ensures |Filter(h)| > 0 ==>
              var ls, f := Lines(Serialise(h)), Filter(h);
              |ls| == |f| &&
              (forall i :: 0 <= i < |f| - 1 ==> ls[i] == Render(f[i]) + "\r") &&
              ls[|f| - 1] == Render(f[|f| - 1])
  {
    var f := Filter(h);
    if |f| > 0 {
      forall i | 0 <= i < |f|
        ensures '\n' !in Render(f[i])
      {
        assert f[i] in h;
      }
      LinesOfJoinCrlf(RenderAll(f));
    }
  }
}
