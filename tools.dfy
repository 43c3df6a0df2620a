/** The general helpers: the occurrence counter, the JSON fallback for sets
    and the multi-format date parser. A Python dict remembers the order in
    which its keys were first inserted; where that order matters it is
    returned beside the map as the sequence of keys. */
module Tools {
  import opened Wrappers
  import opened Builtins

  // ---------------------------------------------------------------------
  // counter

  /** The distinct elements of `l` in the order of their first occurrence:
      the key order of a dict filled by walking `l`. */
  function FirstAppearances<T(==)>(l: seq<T>): (r: seq<T>)
    ensures Distinct(r)
    ensures forall i | 0 <= i < |r| :: r[i] in l
    ensures forall i | 0 <= i < |l| :: l[i] in r
  {
    if l == [] then []
    else
      var d := FirstAppearances(l[..|l| - 1]);
      var e := l[|l| - 1];
      assert forall i | 0 <= i < |l| - 1 :: l[i] == l[..|l| - 1][i];
      if e in d then d else d + [e]
  }

  /** The sum of the counts of `keys`. */
  ghost function SumOver<T>(keys: seq<T>, counts: map<T, nat>): nat
    requires forall i | 0 <= i < |keys| :: keys[i] in counts
  {
    if keys == [] then 0
    else SumOver(keys[..|keys| - 1], counts) + counts[keys[|keys| - 1]]
  }

  /** Changing the count of a key that is not summed leaves the sum alone. */
  lemma {:induction false} SumOverOther<T>(keys: seq<T>, counts: map<T, nat>, e: T, v: nat)
    requires forall i | 0 <= i < |keys| :: keys[i] in counts
    requires e !in keys
    ensures SumOver(keys, counts[e := v]) == SumOver(keys, counts)
  {
    if keys != [] {
      SumOverOther(keys[..|keys| - 1], counts, e, v);
    }
  }

  /** Raising the count of one summed key by one raises the sum by one. */
  lemma {:induction false} SumOverIncrement<T>(keys: seq<T>, counts: map<T, nat>, e: T)
    requires forall i | 0 <= i < |keys| :: keys[i] in counts
    requires Distinct(keys) && e in keys
    ensures SumOver(keys, counts[e := counts[e] + 1]) == SumOver(keys, counts) + 1
  {
    var init := keys[..|keys| - 1];
    var last := keys[|keys| - 1];
    if last == e {
      assert forall i | 0 <= i < |init| :: init[i] == keys[i];
      SumOverOther(init, counts, e, counts[e] + 1);
    } else {
      assert e in init by {
        var i :| 0 <= i < |keys| && keys[i] == e;
        assert init[i] == e;
      }
      assert Distinct(init) by {
        assert forall i, j | 0 <= i < j < |init| :: init[i] == keys[i] && init[j] == keys[j];
      }
      SumOverIncrement(init, counts, e);
    }
  }

  /** `keys` and `counts` are the dict `counter` has built after walking
      the prefix `p`. */
  ghost predicate CountsOf<T>(keys: seq<T>, counts: map<T, nat>, p: seq<T>) {
    && keys == FirstAppearances(p)
    && (forall i | 0 <= i < |keys| :: keys[i] in counts)
    && (forall x | x in counts :: x in keys)
    && (forall x | x in counts :: counts[x] == multiset(p)[x])
    && SumOver(keys, counts) == |p|
  }

  /** Meeting an element already counted raises its count by one. */
  lemma CountSeen<T>(keys: seq<T>, counts: map<T, nat>, p: seq<T>, e: T)
    requires CountsOf(keys, counts, p) && e in counts
    ensures CountsOf(keys, counts[e := counts[e] + 1], p + [e])
  {
    assert (p + [e])[..|p|] == p;
    assert multiset(p + [e]) == multiset(p) + multiset{e};
    SumOverIncrement(keys, counts, e);
  }

  /** Meeting a new element adds it as the last key with count 1. */
  lemma CountNew<T>(keys: seq<T>, counts: map<T, nat>, p: seq<T>, e: T)
    requires CountsOf(keys, counts, p) && e !in counts
    ensures CountsOf(keys + [e], counts[e := 1], p + [e])
  {
    NewKeyOrder(keys, counts, p, e);
    NewKeyCount(keys, counts, p, e);
    NewKeySum(keys, counts, p, e);
  }

  lemma NewKeyOrder<T>(keys: seq<T>, counts: map<T, nat>, p: seq<T>, e: T)
    requires CountsOf(keys, counts, p) && e !in counts
    ensures FirstAppearances(p + [e]) == keys + [e]
  {
    assert e !in keys;
    assert (p + [e])[..|p|] == p;
  }

  lemma NewKeyCount<T>(keys: seq<T>, counts: map<T, nat>, p: seq<T>, e: T)
    requires CountsOf(keys, counts, p) && e !in counts
    ensures forall x | x in counts[e := 1] :: counts[e := 1][x] == multiset(p + [e])[x]
  {
    assert e !in keys;
    assert e !in p;
    assert multiset(p + [e]) == multiset(p) + multiset{e};
  }

  lemma NewKeySum<T>(keys: seq<T>, counts: map<T, nat>, p: seq<T>, e: T)
    requires CountsOf(keys, counts, p) && e !in counts
    ensures SumOver(keys + [e], counts[e := 1]) == |p + [e]|
  {
    assert e !in keys;
    SumOverOther(keys, counts, e, 1);
    assert (keys + [e])[..|keys|] == keys;
  }

  /** Once the whole input is walked the dict answers for all of it. */
  lemma CountsOfAll<T>(keys: seq<T>, counts: map<T, nat>, l: seq<T>)
    requires CountsOf(keys, counts, l)
    ensures forall x | x in counts :: x in l
    ensures forall i | 0 <= i < |l| :: l[i] in counts
    ensures forall x | x in counts :: counts[x] == multiset(l)[x] >= 1
    ensures counts == map[] <==> l == []
  {
    if l != [] {
      assert l[0] in keys;
    }
  }

  /** `counter`: one key per distinct element, in order of first
      occurrence, mapped to the number of times it occurs; the counts add
      up to the length of the input. */
  method Counter<T(==)>(l: seq<T>) returns (keys: seq<T>, counts: map<T, nat>)
    ensures keys == FirstAppearances(l)
    ensures forall i | 0 <= i < |keys| :: keys[i] in counts
    ensures forall x | x in counts :: x in l
    ensures forall i | 0 <= i < |l| :: l[i] in counts
    ensures forall x | x in counts :: counts[x] == multiset(l)[x] >= 1
    ensures SumOver(keys, counts) == |l|
    ensures counts == map[] <==> l == []
  {
    keys := [];
    counts := map[];
    assert l[..0] == [];
    for n := 0 to |l|
      invariant CountsOf(keys, counts, l[..n])
    {
      var element := l[n];
      ghost var walked := l[..n];
      assert l[..n + 1] == walked + [element];
      if element in counts {
        CountSeen(keys, counts, walked, element);
        counts := counts[element := counts[element] + 1];
      } else {
        CountNew(keys, counts, walked, element);
        counts := counts[element := 1];
        keys := keys + [element];
      }
    }
    assert l[..|l|] == l;
    CountsOfAll(keys, counts, l);
  }

  // ---------------------------------------------------------------------
  // get_nonjson

  /** The values `json.dumps` hands to its `default` hook: a set, a list,
      or any other value. */
  datatype PyValue<T> =
    | PySet(members: set<T>)
    | PyList(items: seq<T>)
    | PyOther(other: T)

  /** `get_nonjson`: a set becomes a list of exactly its elements, each
      once, in the set's iteration order; anything else is returned as it
      is. */
  method GetNonJson<T(==)>(obj: PyValue<T>) returns (r: PyValue<T>)
    ensures obj.PySet? ==> r.PyList? && Distinct(r.items) && |r.items| == |obj.members|
    ensures obj.PySet? ==> forall x :: x in r.items <==> x in obj.members
    ensures !obj.PySet? ==> r == obj
  {
    if obj.PySet? {
      var items := SetToList(obj.members);
      return PyList(items);
    }
    return obj;
  }

  // ---------------------------------------------------------------------
  // parse_datetime

  datatype Date = Date(year: int, month: int, day: int)

  /** `datetime.strptime(s, fmt).date()`: a date, or `None` for any
      exception it raises. */
  type Strptime = (string, string) -> Option<Date>

  /** `DATE_FMTS`, in the order they are tried. */
  const DateFormats: seq<string> := ["%m/%d/%Y", "%Y/%m/%d", "%m-%d-%Y", "%Y-%m-%d", "%Y"]

  /** `parse_datetime`: the date of the first format, in the listed order,
      that parses the string; a `ValueError` naming the string when none
      does. */
  method ParseDatetime(s: string, strptime: Strptime) returns (r: Result<Date, Exception>)
    ensures r.Ok? <==> exists k :: 0 <= k < |DateFormats| && strptime(s, DateFormats[k]).Some?
    ensures r.Ok? ==>
      exists k :: 0 <= k < |DateFormats| && strptime(s, DateFormats[k]) == Some(r.value)
        && (forall j | 0 <= j < k :: strptime(s, DateFormats[j]).None?)
    ensures r.Err? ==> r.error == ValueError("No available format to parse: " + s)
  {
    for k := 0 to |DateFormats|
      invariant forall j | 0 <= j < k :: strptime(s, DateFormats[j]).None?
    {
      var parsed := strptime(s, DateFormats[k]);
      if parsed.Some? {
        return Ok(parsed.value);
      }
    }
    return Err(ValueError("No available format to parse: " + s));
  }
}
