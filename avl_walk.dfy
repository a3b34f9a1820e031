/**
 * The reference semantics of in-order enumeration in src/avl_tree.c: an
 * action called on each payload in turn, stopping at the first non-zero
 * result. Stated over plain sequences; the tree walk is tied to it in
 * AvlOps.ForEachRecursive.
 */
module AvlWalk {

  /**
   * The observable effect of an enumeration: the value handed back and the
   * payloads the action was called on, in call order.
   */
  datatype Walk<T> = Walk(ret: int, calls: seq<T>)

  /**
   * Reference semantics of enumeration over a sequence: call the action on
   * each element in turn and stop at the first non-zero result.
   */
  ghost function Scan<T>(s: seq<T>, action: T -> int): Walk<T>
  {
    if s == [] then Walk(0, [])
    else if action(s[0]) != 0 then Walk(action(s[0]), [s[0]])
    else
      var w := Scan(s[1..], action);
      Walk(w.ret, [s[0]] + w.calls)
  }

  /**
   * What Scan promises: the calls are a prefix of the sequence; a zero
   * result means every element was visited and returned 0; a non-zero
   * result is what the last call returned, all earlier calls returned 0,
   * and nothing after it was visited.
   */
  lemma {:induction false} ScanMeaning<T>(s: seq<T>, action: T -> int)
    ensures Scan(s, action).calls <= s
    ensures forall i :: 0 <= i < |Scan(s, action).calls| - 1 ==> action(Scan(s, action).calls[i]) == 0
    ensures Scan(s, action).ret == 0 <==> (Scan(s, action).calls == s && forall i :: 0 <= i < |s| ==> action(s[i]) == 0)
    ensures Scan(s, action).ret != 0 ==>
              |Scan(s, action).calls| > 0 && action(Scan(s, action).calls[|Scan(s, action).calls| - 1]) == Scan(s, action).ret
  {
    if s != [] && action(s[0]) == 0 {
      ScanMeaning(s[1..], action);
      var w := Scan(s[1..], action);
      assert Scan(s, action).calls == [s[0]] + w.calls;
      if w.ret == 0 {
        assert [s[0]] + s[1..] == s;
      }
      assert forall i :: 1 <= i < |s| ==> s[i] == s[1..][i - 1];
    }
  }

  /** Scanning a concatenation scans the second part only if the first ran through. */
  lemma {:induction false} ScanAppend<T>(a: seq<T>, b: seq<T>, action: T -> int)
    ensures Scan(a + b, action) ==
              if Scan(a, action).ret != 0 then Scan(a, action)
              else Walk(Scan(b, action).ret, a + Scan(b, action).calls)
  {
    if a == [] {
      assert a + b == b;
    } else {
      assert (a + b)[0] == a[0];
      assert (a + b)[1..] == a[1..] + b;
      ScanAppend(a[1..], b, action);
      if action(a[0]) == 0 && Scan(a[1..], action).ret == 0 {
        assert [a[0]] + (a[1..] + Scan(b, action).calls) == a + Scan(b, action).calls;
      }
    }
  }

  /** Scanning a sequence that starts with `d` calls the action on `d` first. */
  lemma ScanCons<T>(d: T, s: seq<T>, action: T -> int)
    ensures Scan([d] + s, action) ==
              if action(d) != 0 then Walk(action(d), [d])
              else Walk(Scan(s, action).ret, [d] + Scan(s, action).calls)
  {
    assert ([d] + s)[0] == d && ([d] + s)[1..] == s;
  }

  /** A scan that ends with 0 has called the action on every element. */
  lemma ScanRanThrough<T>(s: seq<T>, action: T -> int)
    requires Scan(s, action).ret == 0
    ensures Scan(s, action).calls == s
  {
    ScanMeaning(s, action);
  }

  /**
   * The three ways a walk around one node (left part `a`, the node's `d`,
   * right part `b`) can go: it stops inside `a`, it stops at `d`, or it
   * runs on into `b`.
   */
  lemma ScanStopsLeft<T>(a: seq<T>, d: T, b: seq<T>, action: T -> int)
    requires Scan(a, action).ret != 0
    ensures Scan(a + [d] + b, action) == Scan(a, action)
  {
    assert a + [d] + b == a + ([d] + b);
    ScanAppend(a, [d] + b, action);
  }

  lemma ScanStopsAt<T>(a: seq<T>, d: T, b: seq<T>, action: T -> int)
    requires Scan(a, action).ret == 0 && action(d) != 0
    ensures Scan(a + [d] + b, action) == Walk(action(d), a + [d])
  {
    assert a + [d] + b == a + ([d] + b);
    ScanAfterRunThrough(a, [d] + b, action);
    ScanCons(d, b, action);
  }

  lemma ScanRunsOn<T>(a: seq<T>, d: T, b: seq<T>, action: T -> int)
    requires Scan(a, action).ret == 0 && action(d) == 0
    ensures Scan(a + [d] + b, action) == Walk(Scan(b, action).ret, a + ([d] + Scan(b, action).calls))
  {
    assert a + [d] + b == a + ([d] + b);
    ScanAfterRunThrough(a, [d] + b, action);
    ScanCons(d, b, action);
  }

  /** After a prefix that runs through, the scan goes on exactly as on the rest. */
  lemma {:induction false} ScanAfterRunThrough<T>(a: seq<T>, rest: seq<T>, action: T -> int)
    requires Scan(a, action).ret == 0
    ensures Scan(a + rest, action) == Walk(Scan(rest, action).ret, a + Scan(rest, action).calls)
  {
    if a == [] {
      assert a + rest == rest;
    } else {
      assert (a + rest)[0] == a[0] && (a + rest)[1..] == a[1..] + rest;
      ScanAfterRunThrough(a[1..], rest, action);
      assert [a[0]] + (a[1..] + Scan(rest, action).calls) == a + Scan(rest, action).calls;
    }
  }
}
