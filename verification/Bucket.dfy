/** One key of an object store, as ObjectStorageClient shows it (storage_clients/registry.go). Calls may
    fail, and a failed call may still have taken effect. */
module Bucket {
  import opened Base

  datatype Part = Part(etag: string, data: seq<byte>)

  type Parts = map<nat, Part>

  function Added(parts: Parts, n: nat, part: Part): Parts
  {
    map m: nat | m in parts.Keys + {n} :: if m == n then part else parts[m]
  }

  function Flatten(parts: seq<seq<byte>>): seq<byte>
  {
    if parts == [] then [] else Flatten(parts[..|parts| - 1]) + parts[|parts| - 1]
  }

  predicate Ascending(order: seq<nat>)
  {
    forall i, j | 0 <= i < j < |order| :: order[i] < order[j]
  }

  ghost predicate Lists(order: seq<nat>, keys: set<nat>)
  {
    Ascending(order) && forall n: nat :: n in order <==> n in keys
  }

  /** What Complete names must be what was uploaded. */
  predicate Confirmed(parts: Parts, etags: map<nat, string>)
  {
    forall n | n in etags :: n in parts && parts[n].etag == etags[n]
  }

  function Chosen(parts: Parts, order: seq<nat>): seq<seq<byte>>
    requires forall i | 0 <= i < |order| :: order[i] in parts
  {
    seq(|order|, i requires 0 <= i < |order| => parts[order[i]].data)
  }

  /** The object that completing an upload with these etags makes. */
  ghost predicate Assembles(parts: Parts, etags: map<nat, string>, content: seq<byte>)
  {
    Confirmed(parts, etags) && exists order ::
        Lists(order, etags.Keys) && (forall i | 0 <= i < |order| :: order[i] in parts) &&
                                                content == Flatten(Chosen(parts, order))
  }

  method SmallestOf(keys: set<nat>) returns (m: nat)
    requires keys != {}
    ensures m in keys && forall n | n in keys :: m <= n
  {
    m :| m in keys;
    var todo := keys - {m};
    while todo != {}
      invariant todo <= keys && m in keys && forall n | n in keys && n !in todo :: m <= n
      decreases todo
    {
      var n :| n in todo;
      if n < m {
        m := n;
      }
      todo := todo - {n};
    }
  }

  /** Part numbers of an etag map in ascending order, as the clients send them. */
  method SortedKeys(keys: set<nat>) returns (order: seq<nat>)
    ensures Lists(order, keys)
  {
    order := [];
    var todo := keys;
    while todo != {}
      invariant todo <= keys && Ascending(order)
      invariant forall n: nat :: n in order <==> n in keys && n !in todo
      invariant forall a, b | a in order && b in todo :: a < b
      decreases todo
    {
      var m := SmallestOf(todo);
      assert forall i | 0 <= i < |order| :: order[i] in order;
      order := order + [m];
      todo := todo - {m};
    }
  }

  /** The i-th of the numbers 1..k listed in ascending order is i + 1. */
  lemma {:induction false} OneToK(order: seq<nat>, k: nat)
    requires Ascending(order) && forall n: nat :: n in order <==> 1 <= n <= k
    ensures |order| == k && forall i | 0 <= i < k :: order[i] == i + 1
  {
    if order == [] {
      assert k >= 1 ==> k in order;
    } else {
      LastIsK(order, k);
      var front := order[..|order| - 1];
      FrontIsBelow(order, front, k);
      OneToK(front, k - 1);
    }
  }

  lemma LastIsK(order: seq<nat>, k: nat)
    requires order != [] && Ascending(order) && forall n: nat :: n in order <==> 1 <= n <= k
    ensures k >= 1 && order[|order| - 1] == k
  {
    assert order[|order| - 1] in order;
    assert k in order;
    var i :| 0 <= i < |order| && order[i] == k;
  }

  lemma FrontIsBelow(order: seq<nat>, front: seq<nat>, k: nat)
    requires Ascending(order) && order != [] && order[|order| - 1] == k && forall n: nat :: n in order <==> 1 <= n <= k
    requires front == order[..|order| - 1]
    ensures forall n: nat :: n in front <==> 1 <= n <= k - 1
  {
    forall n: nat ensures n in front <==> 1 <= n <= k - 1 {
      if 1 <= n <= k - 1 {
        assert n in order;
        var i :| 0 <= i < |order| && order[i] == n;
        assert front[i] == n;
      }
      if n in front {
        var i :| 0 <= i < |front| && front[i] == n;
        assert order[i] < order[|order| - 1] && order[i] in order;
      }
    }
  }

  class Bucket {
    var visible: Option<seq<byte>>
    var uploads: map<nat, Parts>
    var nextId: nat
    ghost var failures: nat    // calls that reported an error which was not the caller's fault

    ghost predicate Valid()
      reads this
    {
      forall id | id in uploads :: id < nextId
    }

    constructor (before: Option<seq<byte>>)
      ensures Valid() && visible == before
    {
      visible, uploads, nextId, failures := before, map[], 0, 0;
    }

    method Initiate() returns (ok: bool, id: nat)
      requires Valid()
      modifies this`uploads, this`nextId, this`failures
      ensures Valid() && failures == old(failures) + if ok then 0 else 1
      ensures forall u | u in old(uploads) :: u in uploads && uploads[u] == old(uploads)[u]
      ensures ok ==> id !in old(uploads) && id in uploads && uploads[id] == map[]
    {
      var reported: bool, applied: bool := *, *;
      ok, id := reported && applied, nextId;
      if applied {
        uploads := uploads[id := map[]];
        nextId := nextId + 1;
      }
      failures := failures + if ok then 0 else 1;
    }

    method UploadPart(id: nat, n: nat, data: seq<byte>) returns (ok: bool, etag: string)
      requires Valid()
      modifies this`uploads, this`failures
      ensures Valid() && failures == old(failures) + if ok || id !in old(uploads) then 0 else 1
      ensures forall u | u in old(uploads) && u != id :: u in uploads && uploads[u] == old(uploads)[u]
      ensures id in old(uploads) ==> id in uploads && forall m | m in old(uploads)[id] && m != n ::
                                       m in uploads[id] && uploads[id][m] == old(uploads)[id][m]
      ensures ok ==> id in old(uploads) && uploads == old(uploads)[id := Added(old(uploads)[id], n, Part(etag, data))]
    {
      var reported: bool, applied: bool := *, *;
      etag := *;
      ok := reported && applied && id in uploads;
      failures := failures + if ok || id !in uploads then 0 else 1;
      if applied && id in uploads {
        uploads := uploads[id := Added(uploads[id], n, Part(etag, data))];
      }
    }

    method Complete(id: nat, etags: map<nat, string>) returns (ok: bool)
      requires Valid()
      modifies this
      ensures Valid()
      ensures failures ==
              old(failures) + if ok || id !in old(uploads) || !Confirmed(old(uploads)[id], etags) then 0 else 1
      ensures ok ==> id in old(uploads) && visible.Some? && Assembles(old(uploads)[id], etags, visible.value)
      ensures !ok ==> visible == old(visible) ||
                      (id in old(uploads) && visible.Some? && Assembles(old(uploads)[id], etags, visible.value))
    {
      var order := SortedKeys(etags.Keys);
      var reported: bool, applied: bool := *, *;
      ok := false;
      failures := failures + if (applied && reported) || id !in uploads || !Confirmed(uploads[id], etags) then 0 else 1;
      if applied && id in uploads && Confirmed(uploads[id], etags) {
        assert forall i | 0 <= i < |order| :: order[i] in order;
        var parts := Chosen(uploads[id], order);
        visible := Some(Flatten(parts));
        uploads := uploads - {id};
        ok := reported;
      }
    }

    method Abort(id: nat) returns (ok: bool)
      requires Valid()
      modifies this`uploads, this`failures
      ensures Valid() && failures == old(failures) + if ok then 0 else 1
    {
      var reported: bool, applied: bool := *, *;
      ok := reported;
      failures := failures + if ok then 0 else 1;
      if applied {
        uploads := uploads - {id};
      }
    }

    method PutObject(data: seq<byte>) returns (ok: bool)
      modifies this`visible, this`failures
      ensures failures == old(failures) + if ok then 0 else 1
      ensures if ok then visible == Some(data) else visible == old(visible) || visible == Some(data)
    {
      var reported: bool, applied: bool := *, *;
      ok := reported && applied;
      failures := failures + if ok then 0 else 1;
      if applied {
        visible := Some(data);
      }
    }
  }
}
