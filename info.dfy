/** The block summary of the `info` command: how many blocks each type
    prefix has, reported in ascending numeric order of the prefix. */
module Info {
  import opened Results
  import opened OrderedDict
  import BlockKey
  import Sgff

  // ----- counting -----

  /** The type prefixes of `keys`, in order. */
  function Prefixes(keys: seq<string>): (ps: seq<string>)
    ensures |ps| == |keys|
    ensures forall i :: 0 <= i < |keys| ==> ps[i] == BlockKey.TypePrefix(keys[i])
  {
    seq(|keys|, i requires 0 <= i < |keys| => BlockKey.TypePrefix(keys[i]))
  }

  /** The number of keys whose type prefix is `p`. */
  function CountOf(keys: seq<string>, p: string): nat
  {
    if keys == [] then 0
    else
      var n := |keys| - 1;
      CountOf(keys[..n], p) + (if BlockKey.TypePrefix(keys[n]) == p then 1 else 0)
  }

  /** The distinct elements of `ps`, in the order they first occur. */
  function Dedup(ps: seq<string>): seq<string>
  {
    if ps == [] then []
    else
      var d := Dedup(ps[..|ps| - 1]);
      if ps[|ps| - 1] in d then d else d + [ps[|ps| - 1]]
  }

  predicate Distinct(xs: seq<string>)
  {
    forall i, j :: 0 <= i < j < |xs| ==> xs[i] != xs[j]
  }

  /** `Dedup` lists every element of `ps` once and nothing else. */
  lemma {:induction false} DedupMembers(ps: seq<string>)
    ensures forall x :: x in Dedup(ps) <==> x in ps
    ensures Distinct(Dedup(ps))
  {
    if ps != [] {
      var init := ps[..|ps| - 1];
      DedupMembers(init);
      assert ps == init + [ps[|ps| - 1]];
    }
  }

  /** A prefix no key has is counted zero times. */
  lemma {:induction false} CountOfAbsent(keys: seq<string>, p: string)
    requires p !in Prefixes(keys)
    ensures CountOf(keys, p) == 0
  {
    if keys != [] {
      var n := |keys| - 1;
      assert Prefixes(keys[..n]) == Prefixes(keys)[..n];
      CountOfAbsent(keys[..n], p);
    }
  }

  /** What `block_types` holds after the counting loop over `keys`: one
      entry per distinct type prefix, in order of first occurrence, mapped
      to the number of keys with that prefix. */
  ghost predicate IsTypeCount(keys: seq<string>, counts: Dict<string, nat>)
  {
    && Keys(counts) == Dedup(Prefixes(keys))
    && forall p :: p in Keys(counts) ==> Get(counts, p) == Some(CountOf(keys, p))
  }

  /** Counting one more key adds one to the count of its prefix only. */
  lemma CountOfSnoc(keys: seq<string>, key: string, q: string)
    ensures CountOf(keys + [key], q) == CountOf(keys, q) + (if BlockKey.TypePrefix(key) == q then 1 else 0)
  {
    assert (keys + [key])[..|keys|] == keys;
  }

  lemma PrefixesSnoc(keys: seq<string>, key: string)
    ensures Prefixes(keys + [key]) == Prefixes(keys) + [BlockKey.TypePrefix(key)]
    ensures Dedup(Prefixes(keys + [key]))
            == var d := Dedup(Prefixes(keys));
               if BlockKey.TypePrefix(key) in d then d else d + [BlockKey.TypePrefix(key)]
  {
    var ps := Prefixes(keys + [key]);
    assert ps[..|keys|] == Prefixes(keys);
  }

  /** One turn of the counting loop, `block_types[t] = block_types.get(t, 0) + 1`. */
  function Tally(counts: Dict<string, nat>, t: string): (r: Dict<string, nat>)
    ensures Get(r, t) == Some(GetOr(counts, t, 0) + 1)
    ensures forall q :: q != t ==> Get(r, q) == Get(counts, q)
    ensures Keys(r) == if t in Keys(counts) then Keys(counts) else Keys(counts) + [t]
    ensures DistinctKeys(counts) ==> DistinctKeys(r)
  {
    Set(counts, t, GetOr(counts, t, 0) + 1)
  }

  /** One turn of the counting loop keeps `IsTypeCount`. */
  lemma CountStep(keys: seq<string>, key: string, counts: Dict<string, nat>)
    requires IsTypeCount(keys, counts)
    ensures IsTypeCount(keys + [key], Tally(counts, BlockKey.TypePrefix(key)))
  {
    CountStepKeys(keys, key, counts);
    CountStepValues(keys, key, counts);
  }

  lemma CountStepKeys(keys: seq<string>, key: string, counts: Dict<string, nat>)
    requires Keys(counts) == Dedup(Prefixes(keys))
    ensures Keys(Tally(counts, BlockKey.TypePrefix(key))) == Dedup(Prefixes(keys + [key]))
  {
    var p := BlockKey.TypePrefix(key);
    var d, d' := Dedup(Prefixes(keys)), Dedup(Prefixes(keys + [key]));
    PrefixesSnoc(keys, key);
    assert d' == if p in d then d else d + [p];
    assert Keys(Tally(counts, p)) == if p in d then d else d + [p];
  }

  lemma CountStepValues(keys: seq<string>, key: string, counts: Dict<string, nat>)
    requires IsTypeCount(keys, counts)
    ensures forall q :: q in Keys(Tally(counts, BlockKey.TypePrefix(key))) ==>
              Get(Tally(counts, BlockKey.TypePrefix(key)), q) == Some(CountOf(keys + [key], q))
  {
    forall q | q in Keys(Tally(counts, BlockKey.TypePrefix(key)))
      ensures Get(Tally(counts, BlockKey.TypePrefix(key)), q) == Some(CountOf(keys + [key], q))
    {
      CountStepValue(keys, key, counts, q);
    }
  }

  lemma CountStepValue(keys: seq<string>, key: string, counts: Dict<string, nat>, q: string)
    requires IsTypeCount(keys, counts)
    requires q in Keys(Tally(counts, BlockKey.TypePrefix(key)))
    ensures Get(Tally(counts, BlockKey.TypePrefix(key)), q) == Some(CountOf(keys + [key], q))
  {
    var p := BlockKey.TypePrefix(key);
    CountOfSnoc(keys, key, q);
    if q == p {
      if p !in Keys(counts) {
        DedupMembers(Prefixes(keys));
        CountOfAbsent(keys, p);
      } else {
        assert Get(counts, p) == Some(CountOf(keys, p));
      }
    } else {
      assert q in Keys(counts);
      assert Get(counts, q) == Some(CountOf(keys, q));
    }
  }

  /** The counting loop of `cmd_info`:
      `block_types[t] = block_types.get(t, 0) + 1` for the prefix `t` of
      every key, in key order. */
  method CountBlockTypes<V>(sgff: Sgff.SgffObject<V>) returns (counts: Dict<string, nat>)
    ensures IsTypeCount(Keys(sgff.blocks), counts)
    ensures DistinctKeys(counts)
  {
    var keys := Keys(sgff.blocks);
    counts := [];
    var i := 0;
    assert keys[..0] == [];
    while i < |keys|
      invariant 0 <= i <= |keys|
      invariant IsTypeCount(keys[..i], counts)
      invariant DistinctKeys(counts)
    {
      var blockType := BlockKey.TypePrefix(keys[i]);
      CountStep(keys[..i], keys[i], counts);
      assert keys[..i] + [keys[i]] == keys[..i + 1];
      counts := Tally(counts, blockType);
      i := i + 1;
    }
    assert keys[..i] == keys;
  }

  // ----- sorted(block_types.keys(), key=int) -----

  ghost predicate AllNumeric(ts: seq<string>)
  {
    forall i :: 0 <= i < |ts| ==> BlockKey.IsDigits(ts[i])
  }

  /** `int(t)` as the sort key. The sort is only run once every element is
      known to be numeric, so the value given to other strings is never
      used. */
  function Value(t: string): (v: nat)
  {
    match BlockKey.ParseNat(t)
    case Some(n) => n
    case None => 0
  }

  /** `int` inverts the decimal rendering of a number. */
  lemma ValueOfRendered(n: nat)
    ensures Value(BlockKey.RenderNat(n)) == n
  {
    BlockKey.ParseRenderNat(n);
  }

  /** `int` ignores a leading zero, so distinct prefixes can have one value. */
  lemma ValueIgnoresLeadingZero(s: string)
    requires BlockKey.IsDigits(s)
    ensures Value("0" + s) == Value(s)
  {
    BlockKey.LeadingZeroIgnored(s);
  }

  ghost predicate Ascending(ts: seq<string>)
  {
    forall i, j :: 0 <= i < j < |ts| ==> Value(ts[i]) <= Value(ts[j])
  }

  /** Places `t` after every element of `ts` whose value is not larger
      and before the rest, so equal values keep their order. */
  function Insert(t: string, ts: seq<string>): (r: seq<string>)
    ensures multiset(r) == multiset(ts) + multiset{t}
  {
    if ts == [] then [t]
    else if Value(t) < Value(ts[0]) then [t] + ts
    else
      assert ts == [ts[0]] + ts[1..];
      [ts[0]] + Insert(t, ts[1..])
  }

  /** The inserted sequence starts with `t` or with the old first element. */
  lemma InsertHead(t: string, ts: seq<string>)
    ensures Insert(t, ts)[0] == t || (ts != [] && Insert(t, ts)[0] == ts[0])
  {
  }

  lemma {:induction false} InsertAscending(t: string, ts: seq<string>)
    requires Ascending(ts)
    ensures Ascending(Insert(t, ts))
  {
    if ts != [] && Value(t) >= Value(ts[0]) {
      var rest := Insert(t, ts[1..]);
      var r := Insert(t, ts);
      InsertAscending(t, ts[1..]);
      InsertHead(t, ts[1..]);
      assert Value(ts[0]) <= Value(rest[0]);
      assert r == [ts[0]] + rest;
      forall i, j | 0 <= i < j < |r| ensures Value(r[i]) <= Value(r[j]) {
        if i == 0 {
          assert r[j] == rest[j - 1];
          assert Value(rest[0]) <= Value(rest[j - 1]) || j == 1;
        } else {
          assert r[i] == rest[i - 1] && r[j] == rest[j - 1];
        }
      }
    }
  }

  lemma {:induction false} InsertDistinct(t: string, ts: seq<string>)
    requires t !in ts && Distinct(ts)
    ensures Distinct(Insert(t, ts))
  {
    if ts != [] && Value(t) >= Value(ts[0]) {
      var rest := Insert(t, ts[1..]);
      InsertDistinct(t, ts[1..]);
      assert ts[0] !in rest by {
        assert ts[0] !in multiset(ts[1..]) + multiset{t};
      }
    }
  }

  /** A stable sort by value (insertion sort). */
  function SortByValue(ts: seq<string>): (r: seq<string>)
    ensures multiset(r) == multiset(ts)
  {
    if ts == [] then []
    else
      var n := |ts| - 1;
      assert ts == ts[..n] + [ts[n]];
      Insert(ts[n], SortByValue(ts[..n]))
  }

  /** The sort orders by value and, given distinct elements, keeps them
      distinct. */
  lemma {:induction false} SortByValueSorts(ts: seq<string>)
    ensures Ascending(SortByValue(ts))
    ensures Distinct(ts) ==> Distinct(SortByValue(ts))
  {
    if ts != [] {
      var n := |ts| - 1;
      var sorted := SortByValue(ts[..n]);
      SortByValueSorts(ts[..n]);
      InsertAscending(ts[n], sorted);
      if Distinct(ts) {
        assert ts[n] !in sorted by {
          assert ts[n] !in multiset(ts[..n]);
        }
        InsertDistinct(ts[n], sorted);
      }
    }
  }

  // ----- stability: equal values keep their order -----

  /** The elements of `ts` whose value is `v`, in their order in `ts`. */
  function WithValue(ts: seq<string>, v: nat): seq<string>
  {
    if ts == [] then []
    else (if Value(ts[0]) == v then [ts[0]] else []) + WithValue(ts[1..], v)
  }

  /** `r` lists the elements of equal value in the order `ts` has them, as
      the stable `sorted` does. */
  ghost predicate Stable(ts: seq<string>, r: seq<string>)
  {
    forall v :: WithValue(r, v) == WithValue(ts, v)
  }

  lemma WithValueCons(x: string, ts: seq<string>, v: nat)
    ensures WithValue([x] + ts, v) == (if Value(x) == v then [x] else []) + WithValue(ts, v)
  {
    assert ([x] + ts)[0] == x && ([x] + ts)[1..] == ts;
  }

  lemma {:induction false} WithValueAppend(a: seq<string>, b: seq<string>, v: nat)
    ensures WithValue(a + b, v) == WithValue(a, v) + WithValue(b, v)
  {
    if a != [] {
      assert a + b == [a[0]] + (a[1..] + b);
      WithValueCons(a[0], a[1..] + b, v);
      WithValueAppend(a[1..], b, v);
    } else {
      assert a + b == b;
    }
  }

  /** Elements all of value `v` are all selected. */
  lemma {:induction false} WithValueAll(ts: seq<string>, v: nat)
    requires forall i :: 0 <= i < |ts| ==> Value(ts[i]) == v
    ensures WithValue(ts, v) == ts
  {
    if ts != [] {
      WithValueAll(ts[1..], v);
    }
  }

  /** Elements all larger than `v` are none of them selected. */
  lemma {:induction false} WithValueAbove(ts: seq<string>, v: nat)
    requires forall i :: 0 <= i < |ts| ==> v < Value(ts[i])
    ensures WithValue(ts, v) == []
  {
    if ts != [] {
      WithValueAbove(ts[1..], v);
    }
  }

  /** The tail of an ascending list is ascending. */
  lemma AscendingTail(ts: seq<string>)
    requires ts != [] && Ascending(ts)
    ensures Ascending(ts[1..])
  {
    assert forall i :: 0 <= i < |ts| - 1 ==> ts[1..][i] == ts[i + 1];
  }

  /** One step of `Insert` past a head `x` whose value is not larger. */
  lemma InsertPastHead(t: string, x: string, tail: seq<string>, v: nat)
    requires Value(x) <= Value(t)
    requires WithValue(Insert(t, tail), v)
             == WithValue(tail, v) + (if Value(t) == v then [t] else [])
    ensures WithValue(Insert(t, [x] + tail), v)
            == WithValue([x] + tail, v) + (if Value(t) == v then [t] else [])
  {
    var e := if Value(t) == v then [t] else [];
    var h := if Value(x) == v then [x] else [];
    var rest := Insert(t, tail);
    assert ([x] + tail)[0] == x && ([x] + tail)[1..] == tail;
    assert Insert(t, [x] + tail) == [x] + rest;
    WithValueCons(x, tail, v);
    WithValueCons(x, rest, v);
    calc {
      WithValue(Insert(t, [x] + tail), v);
      WithValue([x] + rest, v);
      h + WithValue(rest, v);
      h + (WithValue(tail, v) + e);
      (h + WithValue(tail, v)) + e;
    }
  }

  /** `Insert` placing `t` in front, when no element of `ts` has value `v`
      if `t` has. */
  lemma InsertBeforeHead(t: string, ts: seq<string>, v: nat)
    requires ts != [] && Value(t) < Value(ts[0])
    requires Value(t) == v ==> WithValue(ts, v) == []
    ensures WithValue(Insert(t, ts), v)
            == WithValue(ts, v) + (if Value(t) == v then [t] else [])
  {
    assert Insert(t, ts) == [t] + ts;
    WithValueCons(t, ts, v);
  }

  /** Inserting into an ascending list puts `t` after every element of the
      same value. */
  lemma {:induction false} InsertStable(t: string, ts: seq<string>, v: nat)
    requires Ascending(ts)
    ensures WithValue(Insert(t, ts), v) == WithValue(ts, v) + (if Value(t) == v then [t] else [])
  {
    if ts == [] {
      assert [t] + [] == [t];
      WithValueCons(t, [], v);
    } else if Value(t) < Value(ts[0]) {
      if Value(t) == v {
        forall i | 0 <= i < |ts|
          ensures v < Value(ts[i])
        {
          if 0 < i {
            assert Value(ts[0]) <= Value(ts[i]);
          }
        }
        WithValueAbove(ts, v);
      }
      InsertBeforeHead(t, ts, v);
    } else {
      assert [ts[0]] + ts[1..] == ts;
      AscendingTail(ts);
      InsertStable(t, ts[1..], v);
      InsertPastHead(t, ts[0], ts[1..], v);
    }
  }

  /** Taking out the last element of `ts` before selecting. */
  lemma WithValueSnoc(ts: seq<string>, v: nat)
    requires ts != []
    ensures WithValue(ts, v) == WithValue(ts[..|ts| - 1], v)
            + (if Value(ts[|ts| - 1]) == v then [ts[|ts| - 1]] else [])
  {
    var n := |ts| - 1;
    assert ts == ts[..n] + [ts[n]];
    WithValueAppend(ts[..n], [ts[n]], v);
    WithValueCons(ts[n], [], v);
    assert [ts[n]] + [] == [ts[n]];
  }

  lemma {:induction false} SortByValueStableAt(ts: seq<string>, v: nat)
    ensures WithValue(SortByValue(ts), v) == WithValue(ts, v)
  {
    if ts != [] {
      var n := |ts| - 1;
      WithValueSnoc(ts, v);
      SortByValueStableAt(ts[..n], v);
      SortByValueSorts(ts[..n]);
      InsertStable(ts[n], SortByValue(ts[..n]), v);
    }
  }

  /** The sort is stable. */
  lemma SortByValueStable(ts: seq<string>)
    ensures Stable(ts, SortByValue(ts))
  {
    forall v {
      SortByValueStableAt(ts, v);
    }
  }

  /** The position of the first element that is not a digit string, or
      `|ts|` when all are. */
  function FirstNonNumeric(ts: seq<string>): (i: nat)
    ensures i <= |ts|
    ensures forall j :: 0 <= j < i ==> BlockKey.IsDigits(ts[j])
    ensures i < |ts| ==> !BlockKey.IsDigits(ts[i])
  {
    if ts == [] then 0
    else if !BlockKey.IsDigits(ts[0]) then 0
    else 1 + FirstNonNumeric(ts[1..])
  }

  lemma FirstNonNumericAppend(a: seq<string>, b: seq<string>)
    ensures FirstNonNumeric(a) < |a| ==> FirstNonNumeric(a + b) == FirstNonNumeric(a)
    ensures FirstNonNumeric(a) == |a| ==> FirstNonNumeric(a + b) == |a| + FirstNonNumeric(b)
  {
    var i, m, ab := FirstNonNumeric(a), FirstNonNumeric(b), a + b;
    assert forall j :: 0 <= j < |a| ==> ab[j] == a[j];
    assert forall j :: |a| <= j < |ab| ==> ab[j] == b[j - |a|];
    if i < |a| {
      assert !BlockKey.IsDigits(ab[i]);
      assert forall j :: 0 <= j < i ==> BlockKey.IsDigits(ab[j]);
    } else {
      assert forall j :: 0 <= j < |a| + m ==> BlockKey.IsDigits(ab[j]);
      if m < |b| {
        assert !BlockKey.IsDigits(ab[|a| + m]);
      }
    }
  }

  /** Dropping repeats does not change which element is the first that is
      not a digit string. */
  lemma {:induction false} DedupFirstNonNumeric(ps: seq<string>)
    requires FirstNonNumeric(ps) < |ps|
    ensures FirstNonNumeric(Dedup(ps)) < |Dedup(ps)|
    ensures Dedup(ps)[FirstNonNumeric(Dedup(ps))] == ps[FirstNonNumeric(ps)]
  {
    var n := |ps| - 1;
    var init, y := ps[..n], ps[n];
    var d := Dedup(init);
    assert ps == init + [y];
    FirstNonNumericAppend(init, [y]);
    if FirstNonNumeric(init) < n {
      DedupFirstNonNumeric(init);
      FirstNonNumericAppend(d, [y]);
    } else {
      DedupMembers(init);
      assert y !in d by {
        assert !BlockKey.IsDigits(y);
        assert forall x :: x in init ==> BlockKey.IsDigits(x);
      }
      assert Dedup(ps) == d + [y];
      assert AllNumeric(d) by {
        forall j | 0 <= j < |d| ensures BlockKey.IsDigits(d[j]) {
          assert d[j] in init;
        }
      }
      FirstNonNumericAppend(d, [y]);
    }
  }

  /** `sorted(ts, key=int)`: `int` is applied to every element in order
      first, so the first one that is not an integer raises. */
  function SortedByInt(ts: seq<string>): (r: Result<seq<string>>)
    ensures r.Ok? <==> AllNumeric(ts)
    ensures r.ValueError? ==> r.literal == ts[FirstNonNumeric(ts)]
    ensures r.Ok? ==> && AllNumeric(r.value) && Ascending(r.value)
                      && multiset(r.value) == multiset(ts)
                      && (Distinct(ts) ==> Distinct(r.value))
    ensures r.Ok? ==> Stable(ts, r.value)
  {
    var i := FirstNonNumeric(ts);
    if i < |ts| then ValueError(ts[i])
    else
      var r := SortByValue(ts);
      SortByValueSorts(ts);
      SortByValueStable(ts);
      assert AllNumeric(r) by {
        forall k | 0 <= k < |r| ensures BlockKey.IsDigits(r[k]) {
          assert r[k] in multiset(ts);
        }
      }
      Ok(r)
  }

  // ----- the report -----

  /** The sum of the counts of the report lines. */
  function Total(lines: Dict<string, nat>): nat
  {
    if lines == [] then 0 else lines[0].1 + Total(lines[1..])
  }

  /** The number of keys whose type prefix is one of `ts`. */
  function CountAmong(keys: seq<string>, ts: seq<string>): nat
  {
    if keys == [] then 0
    else
      var n := |keys| - 1;
      CountAmong(keys[..n], ts) + (if BlockKey.TypePrefix(keys[n]) in ts then 1 else 0)
  }

  lemma {:induction false} CountAmongCons(keys: seq<string>, t: string, ts: seq<string>)
    requires t !in ts
    ensures CountAmong(keys, [t] + ts) == CountOf(keys, t) + CountAmong(keys, ts)
  {
    if keys != [] {
      CountAmongCons(keys[..|keys| - 1], t, ts);
    }
  }

  lemma {:induction false} CountAmongNone(keys: seq<string>)
    ensures CountAmong(keys, []) == 0
  {
    if keys != [] {
      CountAmongNone(keys[..|keys| - 1]);
    }
  }

  lemma {:induction false} CountAmongAll(keys: seq<string>, ts: seq<string>)
    requires forall j :: 0 <= j < |keys| ==> BlockKey.TypePrefix(keys[j]) in ts
    ensures CountAmong(keys, ts) == |keys|
  {
    if keys != [] {
      CountAmongAll(keys[..|keys| - 1], ts);
    }
  }

  /** Lines that give each of their distinct types its exact count add up to
      the number of keys with one of those types. */
  lemma {:induction false} TotalOfExactCounts(keys: seq<string>, lines: Dict<string, nat>)
    requires DistinctKeys(lines)
    requires forall i :: 0 <= i < |lines| ==> lines[i].1 == CountOf(keys, lines[i].0)
    ensures Total(lines) == CountAmong(keys, Keys(lines))
  {
    if lines == [] {
      CountAmongNone(keys);
    } else {
      var rest := lines[1..];
      assert forall i :: 0 <= i < |rest| ==> rest[i] == lines[i + 1];
      assert DistinctKeys(rest);
      TotalOfExactCounts(keys, rest);
      assert Keys(lines) == [lines[0].0] + Keys(rest);
      assert lines[0].0 !in Keys(rest);
      CountAmongCons(keys, lines[0].0, Keys(rest));
      assert Total(lines) == lines[0].1 + Total(rest);
    }
  }

  /** The report loop of `cmd_info`: each type in the sorted order with
      its count, `block_types[block_type]`. */
  method ReportLines(counts: Dict<string, nat>, order: seq<string>) returns (lines: Dict<string, nat>)
    requires forall t :: t in order ==> t in Keys(counts)
    ensures Keys(lines) == order
    ensures forall k :: 0 <= k < |lines| ==> Get(counts, lines[k].0) == Some(lines[k].1)
  {
    lines := [];
    var i := 0;
    while i < |order|
      invariant 0 <= i <= |order|
      invariant Keys(lines) == order[..i]
      invariant forall k :: 0 <= k < i ==> Get(counts, lines[k].0) == Some(lines[k].1)
    {
      assert order[i] in order;
      var count := Get(counts, order[i]).value;
      lines := lines + [(order[i], count)];
      assert Keys(lines) == order[..i] + [order[i]];
      i := i + 1;
    }
  }

  /** The report describes the keys exactly: every type prefix once, with
      its exact count, the counts adding up to the number of blocks. */
  lemma ReportIsExact(keys: seq<string>, counts: Dict<string, nat>, lines: Dict<string, nat>)
    requires IsTypeCount(keys, counts) && DistinctKeys(counts)
    requires multiset(Keys(lines)) == multiset(Keys(counts)) && Distinct(Keys(lines))
    requires forall k :: 0 <= k < |lines| ==> Get(counts, lines[k].0) == Some(lines[k].1)
    ensures DistinctKeys(lines)
    ensures forall p :: p in Keys(lines) <==> p in Prefixes(keys)
    ensures forall i :: 0 <= i < |lines| ==> lines[i].1 == CountOf(keys, lines[i].0)
    ensures Total(lines) == |keys|
  {
    DedupMembers(Prefixes(keys));
    assert forall p :: p in Keys(lines) <==> p in Keys(counts) by {
      assert forall p :: p in Keys(lines) <==> p in multiset(Keys(lines));
      assert forall p :: p in Keys(counts) <==> p in multiset(Keys(counts));
    }
    forall i | 0 <= i < |lines| ensures lines[i].1 == CountOf(keys, lines[i].0) {
      assert lines[i].0 in Keys(lines);
    }
    TotalOfExactCounts(keys, lines);
    forall j | 0 <= j < |keys| ensures BlockKey.TypePrefix(keys[j]) in Keys(lines) {
      assert Prefixes(keys)[j] in Prefixes(keys);
    }
    CountAmongAll(keys, Keys(lines));
  }

  /** The type prefixes are all numeric exactly when the keys of the count
      dictionary are. */
  lemma NumericCounts(keys: seq<string>, counts: Dict<string, nat>)
    requires IsTypeCount(keys, counts)
    ensures AllNumeric(Keys(counts)) <==> AllNumeric(Prefixes(keys))
  {
    DedupMembers(Prefixes(keys));
    var ps := Prefixes(keys);
    if AllNumeric(Keys(counts)) {
      forall j | 0 <= j < |ps| ensures BlockKey.IsDigits(ps[j]) {
        assert ps[j] in Keys(counts);
      }
    }
    if AllNumeric(ps) {
      forall i | 0 <= i < |counts| ensures BlockKey.IsDigits(Keys(counts)[i]) {
        assert Keys(counts)[i] in ps;
      }
    }
  }

  ghost predicate StrictlyAscending(ts: seq<string>)
  {
    forall i, j :: 0 <= i < j < |ts| ==> Value(ts[i]) < Value(ts[j])
  }

  ghost predicate AllCanonical(ts: seq<string>)
  {
    forall i :: 0 <= i < |ts| ==> BlockKey.IsCanonical(ts[i])
  }

  /** Distinct prefixes without leading zeros are distinct numbers, so the
      ascending order is strict. */
  lemma CanonicalStrictlyAscending(ts: seq<string>)
    requires Ascending(ts) && Distinct(ts) && AllCanonical(ts)
    ensures StrictlyAscending(ts)
  {
    forall i, j | 0 <= i < j < |ts| ensures Value(ts[i]) < Value(ts[j]) {
      assert BlockKey.RenderNat(Value(ts[i])) == ts[i];
      assert BlockKey.RenderNat(Value(ts[j])) == ts[j];
    }
  }

  /** When every key's prefix is canonical, so is every reported type. */
  lemma ReportCanonical(keys: seq<string>, lines: Dict<string, nat>)
    requires forall p :: p in Keys(lines) <==> p in Prefixes(keys)
    requires AllCanonical(Prefixes(keys))
    ensures AllCanonical(Keys(lines))
  {
    forall i | 0 <= i < |lines| ensures BlockKey.IsCanonical(Keys(lines)[i]) {
      assert Keys(lines)[i] in Prefixes(keys);
    }
  }

  /** The sort and report loop of `cmd_info`, given the counts of `keys`. */
  method Report(counts: Dict<string, nat>, ghost keys: seq<string>) returns (r: Result<Dict<string, nat>>)
    requires IsTypeCount(keys, counts) && DistinctKeys(counts)
    ensures r.Ok? <==> AllNumeric(Prefixes(keys))
    ensures r.ValueError? ==> r.literal == Prefixes(keys)[FirstNonNumeric(Prefixes(keys))]
    ensures r.Ok? ==> DistinctKeys(r.value)
    ensures r.Ok? ==> forall p :: p in Keys(r.value) <==> p in Prefixes(keys)
    ensures r.Ok? ==> forall i :: 0 <= i < |r.value| ==> r.value[i].1 == CountOf(keys, r.value[i].0)
    ensures r.Ok? ==> AllNumeric(Keys(r.value)) && Ascending(Keys(r.value))
    ensures r.Ok? ==> Total(r.value) == |keys|
    ensures r.Ok? && AllCanonical(Prefixes(keys)) ==> StrictlyAscending(Keys(r.value))
    ensures r.Ok? ==> Stable(Dedup(Prefixes(keys)), Keys(r.value))
  {
    NumericCounts(keys, counts);
    var sorted := SortedByInt(Keys(counts));
    if sorted.ValueError? {
      DedupFirstNonNumeric(Prefixes(keys));
      return ValueError(sorted.literal);
    }
    var order := sorted.value;
    assert forall t :: t in order ==> t in Keys(counts) by {
      assert forall t :: t in order ==> t in multiset(Keys(counts));
    }
    var lines := ReportLines(counts, order);
    ReportIsExact(keys, counts, lines);
    if AllCanonical(Prefixes(keys)) {
      ReportCanonical(keys, lines);
      assert Distinct(Keys(lines));
      CanonicalStrictlyAscending(Keys(lines));
    }
    return Ok(lines);
  }

  /** The `cmd_info` block summary, without its formatting: count the
      blocks per type prefix, sort the prefixes by `int`, and give each
      prefix with its count. The first prefix, in key order, that is not
      an integer makes `int()` raise. */
  method CmdInfo<V>(sgff: Sgff.SgffObject<V>) returns (r: Result<Dict<string, nat>>)
    ensures r.Ok? <==> AllNumeric(Prefixes(Keys(sgff.blocks)))
    ensures r.ValueError? ==> r.literal == Prefixes(Keys(sgff.blocks))[FirstNonNumeric(Prefixes(Keys(sgff.blocks)))]
    ensures r.Ok? ==> DistinctKeys(r.value)
    ensures r.Ok? ==> forall p :: p in Keys(r.value) <==> p in Prefixes(Keys(sgff.blocks))
    ensures r.Ok? ==> forall i :: 0 <= i < |r.value| ==> r.value[i].1 == CountOf(Keys(sgff.blocks), r.value[i].0)
    ensures r.Ok? ==> AllNumeric(Keys(r.value)) && Ascending(Keys(r.value))
    ensures r.Ok? ==> Total(r.value) == |sgff.blocks|
    ensures r.Ok? && AllCanonical(Prefixes(Keys(sgff.blocks))) ==> StrictlyAscending(Keys(r.value))
    ensures r.Ok? ==> Stable(Dedup(Prefixes(Keys(sgff.blocks))), Keys(r.value))
  {
    var counts := CountBlockTypes(sgff);
    r := Report(counts, Keys(sgff.blocks));
  }

  /** The prefixes, their first occurrences, values and counts of the keys
      "6.0" and "06.1". */
  lemma TieFacts()
    ensures Prefixes(["6.0", "06.1"]) == ["6", "06"]
    ensures Dedup(["6", "06"]) == ["6", "06"]
    ensures Value("6") == 6 && Value("06") == 6
    ensures CountOf(["6.0", "06.1"], "6") == 1 && CountOf(["6.0", "06.1"], "06") == 1
  {
    assert BlockKey.TypePrefix("6.0") == "6" by {
      assert "6.0"[1..] == ".0";
    }
    assert BlockKey.TypePrefix("06.1") == "06" by {
      assert "06.1"[1..] == "6.1" && "6.1"[1..] == ".1";
    }
    assert ["6", "06"][..1] == ["6"] && ["6"][..0] == [];
    assert ["6.0", "06.1"][..1] == ["6.0"] && ["6.0"][..0] == [];
  }

  /** Two keys whose prefixes "6" and "06" differ but name the same type:
      whatever satisfies the report's contract for them is the two lines
      in key order, of equal value, so the order is not strict. */
  lemma NonCanonicalTie(lines: Dict<string, nat>)
    requires forall p :: p in Keys(lines) <==> p in Prefixes(["6.0", "06.1"])
    requires forall i :: 0 <= i < |lines| ==> lines[i].1 == CountOf(["6.0", "06.1"], lines[i].0)
    requires Stable(Dedup(Prefixes(["6.0", "06.1"])), Keys(lines))
    ensures lines == [("6", 1), ("06", 1)]
    ensures !StrictlyAscending(Keys(lines))
  {
    var ps := ["6", "06"];
    TieFacts();
    WithValueAll(ps, 6);
    var ks := Keys(lines);
    forall i | 0 <= i < |ks| ensures Value(ks[i]) == 6 {
      assert ks[i] in ps;
    }
    WithValueAll(ks, 6);
    assert WithValue(ks, 6) == WithValue(ps, 6);
    assert lines[0].0 == "6" && lines[1].0 == "06";
  }
}
