/** The status table `website_status` as a value, and what the result loop
    of `check_websites_async` does to it. */
module StatusTable {
  import opened Outcomes
  import opened Checks

  /** A table entry: the record a check returned, or `{'error': msg}` for a
      task that ended in an exception. */
  datatype Entry = Checked(record: StatusRecord) | Failed(error: string)

  /** What the loop stores for one task result. */
  function Stored(o: Raise<StatusRecord>): (e: Entry)
    ensures e.Failed? <==> o.Raised?
    ensures o.Raised? ==> e.error == o.msg
    ensures o.Returned? ==> e.record == o.value
  {
    match o
    case Returned(rec) => Checked(rec)
    case Raised(m) => Failed(m)
  }

  /** Python's `zip`: pairs up elements and stops at the shorter input. */
  function Zip<A, B>(xs: seq<A>, ys: seq<B>): (r: seq<(A, B)>)
    ensures |r| == if |xs| <= |ys| then |xs| else |ys|
    ensures forall i :: 0 <= i < |r| ==> r[i] == (xs[i], ys[i])
  {
    if xs == [] || ys == [] then [] else [(xs[0], ys[0])] + Zip(xs[1..], ys[1..])
  }

  /** The table after writing each (site, result) pair in order into `t`. */
  function Apply(t: map<string, Entry>, ps: seq<(string, Raise<StatusRecord>)>): (r: map<string, Entry>)
    ensures t.Keys <= r.Keys
    ensures ps != [] ==> ps[|ps| - 1].0 in r && r[ps[|ps| - 1].0] == Stored(ps[|ps| - 1].1)
    decreases |ps|
  {
    if ps == [] then t
    else
      var last := ps[|ps| - 1];
      Apply(t, ps[..|ps| - 1])[last.0 := Stored(last.1)]
  }

  /** The sites named by a sequence of pairs. */
  function Sites(ps: seq<(string, Raise<StatusRecord>)>): set<string> {
    set p | p in ps :: p.0
  }

  /** The index of the last occurrence of `x` in `xs`. */
  function LastIndex<T(==)>(xs: seq<T>, x: T): (r: nat)
    requires x in xs
    ensures r < |xs| && xs[r] == x
    ensures forall j :: r < j < |xs| ==> xs[j] != x
    decreases |xs|
  {
    if xs[|xs| - 1] == x then |xs| - 1 else LastIndex(xs[..|xs| - 1], x)
  }

  /** The table is never cleared: its keys are the old keys plus the sites written. */
  lemma {:induction false} ApplyKeys(t: map<string, Entry>, ps: seq<(string, Raise<StatusRecord>)>)
    ensures Apply(t, ps).Keys == t.Keys + Sites(ps)
    decreases |ps|
  {
    if ps != [] {
      var init := ps[..|ps| - 1];
      ApplyKeys(t, init);
      assert ps == init + [ps[|ps| - 1]];
      assert Sites(ps) == Sites(init) + {ps[|ps| - 1].0};
    }
  }

  /** An entry for a site that no pair names is left exactly as it was. */
  lemma {:induction false} ApplyOutside(t: map<string, Entry>, ps: seq<(string, Raise<StatusRecord>)>, k: string)
    requires forall i :: 0 <= i < |ps| ==> ps[i].0 != k
    ensures k in Apply(t, ps) <==> k in t
    ensures k in t ==> Apply(t, ps)[k] == t[k]
    decreases |ps|
  {
    if ps != [] {
      ApplyOutside(t, ps[..|ps| - 1], k);
    }
  }

  /** A written site holds what the last pair naming it stored: an exception
      result as `Failed(msg)`, any other result unchanged. */
  lemma {:induction false} ApplyLast(t: map<string, Entry>, ps: seq<(string, Raise<StatusRecord>)>, i: nat)
    requires i < |ps|
    requires forall j :: i < j < |ps| ==> ps[j].0 != ps[i].0
    ensures ps[i].0 in Apply(t, ps)
    ensures Apply(t, ps)[ps[i].0] == Stored(ps[i].1)
    decreases |ps|
  {
    if i < |ps| - 1 {
      ApplyLast(t, ps[..|ps| - 1], i);
    }
  }
}
