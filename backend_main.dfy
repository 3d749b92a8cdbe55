/** The Python aggregator `get_aws_resources` of backend/main.py. It appends
    node dicts to `resources["nodes"]` inside nested `for` loops, one
    `try`/`except` per category. The model of one statement block is an
    `Effect`: the nodes it appended and whether it finished or raised. An
    exception (from the API call or a missing key) ends its block, keeps what
    was already appended, and lets the next category run. */
module BackendMain {
  import opened Wrappers
  import opened Inventory

  /** A node dict `{"id", "type", "name"}`, its `type` held in `kind`. Python
      builds the dict before appending it, so every appended node has all of
      its keys. */
  datatype Node = Node(id: string, kind: ResourceType, name: string)

  /** An edge between two nodes. `get_aws_resources` never creates one. */
  datatype Link = Link(source: string, target: string)

  datatype Resources = Resources(nodes: seq<Node>, links: seq<Link>)

  /** What running a block of statements did to the node list: the nodes
      appended, in order, and whether the block finished (`false`: it
      raised after appending `appended`). */
  datatype Effect = Effect(appended: seq<Node>, completed: bool)

  /** Running `a` and then `b`: `b` runs only when `a` finished. What `a`
      appended is kept whatever `b` does, and the two finish together. */
  function Then(a: Effect, b: Effect): (r: Effect)
    ensures a.appended <= r.appended
    ensures r.completed <==> a.completed && b.completed
  {
    if a.completed then Effect(a.appended + b.appended, b.completed) else a
  }

  /** Sequencing blocks is associative. */
  lemma ThenAssociative(a: Effect, b: Effect, c: Effect)
    ensures Then(Then(a, b), c) == Then(a, Then(b, c))
  {
  }

  /** A finished block that appended nothing leaves what follows unchanged. */
  lemma ThenUnit(a: Effect)
    ensures Then(Effect([], true), a) == a
  {
  }

  /** Appending the node a step built, or raising what the step raised. */
  function Emit(step: Result<Node, Exception>): Effect {
    match step
    case Success(n) => Effect([n], true)
    case Failure(_) => Effect([], false)
  }

  /** A `for` loop that appends the node `f` builds from each element in
      turn, where building a node may raise. */
  function MapUntilFailure<T>(xs: seq<T>, f: T -> Result<Node, Exception>): (e: Effect)
    ensures |e.appended| <= |xs|
    ensures e.completed ==> |e.appended| == |xs|
  {
    if xs == [] then Effect([], true) else Then(Emit(f(xs[0])), MapUntilFailure(xs[1..], f))
  }

  /** Running a loop over `xs + ys` is running it over `xs`, then over `ys`. */
  lemma {:induction false} MapUntilFailureAppend<T>(xs: seq<T>, ys: seq<T>, f: T -> Result<Node, Exception>)
    ensures MapUntilFailure(xs + ys, f) == Then(MapUntilFailure(xs, f), MapUntilFailure(ys, f))
  {
    if xs == [] {
      assert xs + ys == ys;
      ThenUnit(MapUntilFailure(ys, f));
    } else {
      assert (xs + ys)[1..] == xs[1..] + ys;
      MapUntilFailureAppend(xs[1..], ys, f);
      ThenAssociative(Emit(f(xs[0])), MapUntilFailure(xs[1..], f), MapUntilFailure(ys, f));
    }
  }

  /** One turn of the loop after a finished prefix: a built node is
      appended, and a raised exception ends the whole loop. */
  lemma {:induction false} MapUntilFailureStep<T>(xs: seq<T>, j: nat, f: T -> Result<Node, Exception>)
    requires j < |xs| && MapUntilFailure(xs[..j], f).completed
    ensures f(xs[j]).Success? ==>
      MapUntilFailure(xs[..j + 1], f) == Effect(MapUntilFailure(xs[..j], f).appended + [f(xs[j]).value], true)
    ensures f(xs[j]).Failure? ==>
      MapUntilFailure(xs, f) == Effect(MapUntilFailure(xs[..j], f).appended, false)
  {
    var pre := MapUntilFailure(xs[..j], f);
    var step := Emit(f(xs[j]));
    assert [xs[j]][1..] == [];
    assert MapUntilFailure([xs[j]], f) == Then(step, Effect([], true));
    assert Then(step, Effect([], true)) == step by {
      assert step.appended + [] == step.appended;
    }
    assert xs[..j] + [xs[j]] == xs[..j + 1];
    MapUntilFailureAppend(xs[..j], [xs[j]], f);
    assert MapUntilFailure(xs[..j + 1], f) == Then(pre, step);
    if step.completed {
    } else {
      assert xs[..j + 1] + xs[j + 1..] == xs;
      MapUntilFailureAppend(xs[..j + 1], xs[j + 1..], f);
    }
  }

  /** The loop appends the nodes built from a prefix of `xs`, and stops
      exactly at the first element whose node cannot be built. */
  lemma {:induction false} MapUntilFailurePrefix<T>(xs: seq<T>, f: T -> Result<Node, Exception>)
    ensures var e := MapUntilFailure(xs, f);
      |e.appended| <= |xs| &&
      (forall k :: 0 <= k < |e.appended| ==> f(xs[k]) == Success(e.appended[k])) &&
      (e.completed <==> |e.appended| == |xs|) &&
      (!e.completed ==> f(xs[|e.appended|]).Failure?)
  {
    if xs != [] {
      MapUntilFailurePrefix(xs[1..], f);
    }
  }

  /** The generator search of line 44, without the default it falls back
      to: it reads each tag's `Key` until one equals `Name`, then that tag's
      `Value`. The result is that value, `None` when no tag is keyed `Name`,
      or the `KeyError` of a key missing on the way. */
  function FirstNameValue(tags: seq<Tag>): (r: Result<Option<string>, Exception>)
    ensures r.Success? && r.value.Some? ==>
      exists k :: 0 <= k < |tags| && tags[k].Key == Some("Name") && tags[k].Value == r.value
    ensures r.Failure? ==> r.error == KeyError("Key") || r.error == KeyError("Value")
  {
    if tags == [] then Success(None)
    else if tags[0].Key.None? then Failure(KeyError("Key"))
    else if tags[0].Key.value == "Name" then
      (if tags[0].Value.None? then Failure(KeyError("Value")) else Success(tags[0].Value))
    else FirstNameValue(tags[1..])
  }

  /** The keys the search for a `Name` tag reads are there: the `Key` of
      every tag up to and including the first one keyed `Name`, and the
      `Value` of that one. */
  predicate NameLookupReadable(tags: seq<Tag>) {
    forall m :: 0 <= m < |tags| && (forall p :: 0 <= p < m ==> tags[p].Key != Some("Name")) ==>
      tags[m].Key.Some? && (tags[m].Key.value == "Name" ==> tags[m].Value.Some?)
  }

  /** The search raises exactly when a key it reads is missing. */
  lemma {:induction false} FirstNameValueSucceeds(tags: seq<Tag>)
    ensures FirstNameValue(tags).Success? <==> NameLookupReadable(tags)
  {
    if tags != [] && tags[0].Key.Some? && tags[0].Key.value != "Name" {
      var tail := tags[1..];
      FirstNameValueSucceeds(tail);
      if NameLookupReadable(tail) {
        forall m | 0 <= m < |tags| && (forall p :: 0 <= p < m ==> tags[p].Key != Some("Name"))
          ensures tags[m].Key.Some? && (tags[m].Key.value == "Name" ==> tags[m].Value.Some?)
        {
          if m > 0 {
            assert tags[m] == tail[m - 1];
            forall p | 0 <= p < m - 1 ensures tail[p].Key != Some("Name") {
              assert tail[p] == tags[p + 1];
            }
          }
        }
      }
      if NameLookupReadable(tags) {
        forall m | 0 <= m < |tail| && (forall p :: 0 <= p < m ==> tail[p].Key != Some("Name"))
          ensures tail[m].Key.Some? && (tail[m].Key.value == "Name" ==> tail[m].Value.Some?)
        {
          assert tail[m] == tags[m + 1];
          forall p | 0 <= p < m + 1 ensures tags[p].Key != Some("Name") {
            if p > 0 {
              assert tags[p] == tail[p - 1];
            }
          }
        }
      }
    }
  }

  /** Every key the dict for an instance is built from is there. */
  predicate InstanceReadable(i: Instance) {
    i.InstanceId.Some? && NameLookupReadable(i.Tags.GetOr([]))
  }

  /** The dict built for one instance (main.py lines 41-45): it is built
      exactly when its keys are there, and carries the instance id. */
  function InstanceNode(i: Instance): (r: Result<Node, Exception>)
    ensures r.Success? <==> InstanceReadable(i)
    ensures r.Success? ==> r.value.id == i.InstanceId.value && r.value.kind == EC2
  {
    if i.InstanceId.None? then Failure(KeyError("InstanceId"))
    else
      var id := i.InstanceId.value;
      FirstNameValueSucceeds(i.Tags.GetOr([]));
      match FirstNameValue(i.Tags.GetOr([]))
      case Failure(e) => Failure(e)
      case Success(name) => Success(Node(id, EC2, name.GetOr(id)))
  }

  /** The first tag keyed `Name` decides the name, even when its value is the
      empty string, provided every tag before it has a `Key`. */
  lemma {:induction false} FirstNameValueAt(tags: seq<Tag>, k: nat)
    requires k < |tags| && tags[k].Key == Some("Name")
    requires forall m :: 0 <= m < k ==> tags[m].Key.Some? && tags[m].Key.value != "Name"
    ensures FirstNameValue(tags) == if tags[k].Value.Some? then Success(tags[k].Value) else Failure(KeyError("Value"))
  {
    if k > 0 {
      FirstNameValueAt(tags[1..], k - 1);
    }
  }

  /** Tags that all have a `Key` and none keyed `Name` give no name. */
  lemma {:induction false} FirstNameValueAbsent(tags: seq<Tag>)
    requires forall m :: 0 <= m < |tags| ==> tags[m].Key.Some? && tags[m].Key.value != "Name"
    ensures FirstNameValue(tags) == Success(None)
  {
    if tags != [] {
      FirstNameValueAbsent(tags[1..]);
    }
  }

  /** An instance's name is the value of its first `Name` tag, kept even
      when it is the empty string. */
  lemma InstanceNameFromFirstNameTag(i: Instance, k: nat)
    requires i.InstanceId.Some?
    requires var tags := i.Tags.GetOr([]);
      k < |tags| && tags[k].Key == Some("Name") && tags[k].Value.Some? &&
      forall m :: 0 <= m < k ==> tags[m].Key.Some? && tags[m].Key.value != "Name"
    ensures InstanceNode(i) == Success(Node(i.InstanceId.value, EC2, i.Tags.value[k].Value.value))
  {
    FirstNameValueAt(i.Tags.GetOr([]), k);
  }

  /** Without a `Name` tag, and in particular without `Tags`, the name is
      the instance id. */
  lemma InstanceNameWithoutNameTag(i: Instance)
    requires i.InstanceId.Some?
    requires var tags := i.Tags.GetOr([]);
      forall m :: 0 <= m < |tags| ==> tags[m].Key.Some? && tags[m].Key.value != "Name"
    ensures InstanceNode(i) == Success(Node(i.InstanceId.value, EC2, i.InstanceId.value))
  {
    FirstNameValueAbsent(i.Tags.GetOr([]));
  }

  /** The inner loop over one reservation's instances; a reservation
      without `Instances` raises `KeyError` before appending anything. */
  function ReservationEffect(r: Reservation): (e: Effect)
    ensures r.Instances.None? ==> e == Effect([], false)
    ensures |e.appended| <= |InstancesOf(r)|
    ensures e.completed ==> |e.appended| == |InstancesOf(r)|
  {
    match r.Instances
    case None => Effect([], false)
    case Some(xs) => MapUntilFailure(xs, InstanceNode)
  }

  /** The outer loop over the reservations. It appends at most one node per
      instance, and exactly one per instance when it finishes. */
  function ReservationsEffect(rs: seq<Reservation>): (e: Effect)
    ensures |e.appended| <= InstanceCount(rs)
    ensures e.completed ==> |e.appended| == InstanceCount(rs)
  {
    if rs == [] then Effect([], true) else Then(ReservationEffect(rs[0]), ReservationsEffect(rs[1..]))
  }

  lemma {:induction false} ReservationsAppend(rs: seq<Reservation>, ss: seq<Reservation>)
    ensures ReservationsEffect(rs + ss) == Then(ReservationsEffect(rs), ReservationsEffect(ss))
  {
    if rs == [] {
      assert rs + ss == ss;
      ThenUnit(ReservationsEffect(ss));
    } else {
      assert (rs + ss)[1..] == rs[1..] + ss;
      ReservationsAppend(rs[1..], ss);
      ThenAssociative(ReservationEffect(rs[0]), ReservationsEffect(rs[1..]), ReservationsEffect(ss));
    }
  }

  /** One turn of the outer loop after a finished prefix: the reservation's
      nodes are appended, and if its inner loop raised, the outer loop ends. */
  lemma {:induction false} ReservationsStep(rs: seq<Reservation>, i: nat)
    requires i < |rs| && ReservationsEffect(rs[..i]).completed
    ensures var before := ReservationsEffect(rs[..i]).appended;
      var here := ReservationEffect(rs[i]);
      (here.completed ==> ReservationsEffect(rs[..i + 1]) == Effect(before + here.appended, true)) &&
      (!here.completed ==> ReservationsEffect(rs) == Effect(before + here.appended, false))
  {
    var pre := ReservationsEffect(rs[..i]);
    var here := ReservationEffect(rs[i]);
    assert [rs[i]][1..] == [];
    assert ReservationsEffect([rs[i]]) == Then(here, Effect([], true));
    assert Then(here, Effect([], true)) == here by {
      assert here.appended + [] == here.appended;
    }
    assert rs[..i] + [rs[i]] == rs[..i + 1];
    ReservationsAppend(rs[..i], [rs[i]]);
    assert ReservationsEffect(rs[..i + 1]) == Then(pre, here);
    if !here.completed {
      assert rs[..i + 1] + rs[i + 1..] == rs;
      ReservationsAppend(rs[..i + 1], rs[i + 1..]);
    }
  }

  /** The EC2 nodes are built from a prefix of all instances, in
      reservation-then-instance order; when the loops finish, there is one
      node per instance. When they raise, they raised in some reservation
      `i` after all earlier reservations finished, and the nodes kept are
      those of the earlier reservations followed by what reservation `i`
      appended before raising. */
  lemma {:induction false} ReservationsEffectPrefix(rs: seq<Reservation>)
    ensures var e := ReservationsEffect(rs);
      |e.appended| <= InstanceCount(rs) &&
      (forall k :: 0 <= k < |e.appended| ==> InstanceNode(AllInstances(rs)[k]) == Success(e.appended[k])) &&
      (e.completed ==> |e.appended| == InstanceCount(rs))
    ensures !ReservationsEffect(rs).completed ==> exists i: nat :: i < |rs| && RaisedIn(rs, i)
  {
    forall k | 0 <= k < |ReservationsEffect(rs).appended|
      ensures InstanceNode(AllInstances(rs)[k]) == Success(ReservationsEffect(rs).appended[k])
    {
      ReservationsEffectNodeAt(rs, k);
    }
    ReservationsEffectStops(rs);
  }

  /** The `k`-th EC2 node is the one built from the `k`-th instance in
      reservation-then-instance order. */
  lemma {:induction false} ReservationsEffectNodeAt(rs: seq<Reservation>, k: nat)
    requires k < |ReservationsEffect(rs).appended|
    ensures k < |AllInstances(rs)|
    ensures InstanceNode(AllInstances(rs)[k]) == Success(ReservationsEffect(rs).appended[k])
  {
    var head := ReservationEffect(rs[0]);
    var tail := rs[1..];
    var xs := InstancesOf(rs[0]);
    assert ReservationsEffect(rs) == Then(head, ReservationsEffect(tail));
    assert AllInstances(rs) == xs + AllInstances(tail);
    if rs[0].Instances.Some? {
      MapUntilFailurePrefix(xs, InstanceNode);
    }
    if k >= |head.appended| {
      assert head.completed && |head.appended| == |xs|;
      ReservationsEffectNodeAt(tail, k - |xs|);
      assert AllInstances(rs)[k] == AllInstances(tail)[k - |xs|];
    }
  }

  /** The EC2 loops raised in the inner loop of reservation `i`, after all
      earlier reservations finished: the nodes kept are those of the earlier
      reservations followed by what reservation `i` appended before raising. */
  predicate RaisedIn(rs: seq<Reservation>, i: nat)
    requires i < |rs|
  {
    ReservationsEffect(rs[..i]).completed && !ReservationEffect(rs[i]).completed &&
    ReservationsEffect(rs).appended == ReservationsEffect(rs[..i]).appended + ReservationEffect(rs[i]).appended
  }

  /** When the EC2 loops raise, they raised in some reservation. */
  lemma {:induction false} ReservationsEffectStops(rs: seq<Reservation>)
    ensures !ReservationsEffect(rs).completed ==> exists i: nat :: i < |rs| && RaisedIn(rs, i)
  {
    if rs != [] {
      var head := ReservationEffect(rs[0]);
      var tail := rs[1..];
      assert ReservationsEffect(rs) == Then(head, ReservationsEffect(tail));
      if !head.completed {
        assert rs[..0] == [];
        assert RaisedIn(rs, 0);
      } else if !ReservationsEffect(tail).completed {
        ReservationsEffectStops(tail);
        var i: nat :| i < |tail| && RaisedIn(tail, i);
        var before := ReservationsEffect(tail[..i]);
        var here := ReservationEffect(tail[i]);
        assert ReservationsEffect(rs[..i + 1]) == Then(head, before) by {
          assert rs[..i + 1][1..] == tail[..i];
        }
        assert rs[i + 1] == tail[i];
        ThenAssociative(head, before, here);
        assert RaisedIn(rs, i + 1);
      }
    }
  }

  /** Every reservation the EC2 loops read has its `Instances` key, and
      every instance has the keys its dict is built from. */
  predicate InstancesReadable(rs: seq<Reservation>) {
    forall r <- rs :: r.Instances.Some? && forall i <- r.Instances.value :: InstanceReadable(i)
  }

  /** The EC2 loops finish exactly when every reservation has `Instances` and
      every instance has the keys its dict is built from; they then append
      one node per instance. */
  lemma {:induction false} ReservationsEffectCompletes(rs: seq<Reservation>)
    ensures ReservationsEffect(rs).completed <==> InstancesReadable(rs)
    ensures ReservationsEffect(rs).completed ==> |ReservationsEffect(rs).appended| == InstanceCount(rs)
  {
    ReservationsEffectPrefix(rs);
    if rs != [] {
      ReservationsEffectCompletes(rs[1..]);
      if rs[0].Instances.Some? {
        MapUntilFailurePrefix(rs[0].Instances.value, InstanceNode);
      }
    }
  }

  /** The EC2 `try` block: the API call, the read of `Reservations`, and
      the two loops. A failed call or a missing `Reservations` raises before
      anything is appended. */
  function Ec2Effect(described: Result<DescribeInstancesResponse, Exception>): (e: Effect)
    ensures described.Failure? || described.value.Reservations.None? ==> e == Effect([], false)
    ensures forall n <- e.appended :: n.kind == EC2
  {
    ReservationsEffectPrefix(if described.Success? then described.value.Reservations.GetOr([]) else []);
    match described
    case Failure(_) => Effect([], false)
    case Success(response) =>
      match response.Reservations
      case None => Effect([], false)
      case Some(rs) => ReservationsEffect(rs)
  }

  /** The dict built for one bucket (lines 54-58). */
  function BucketNode(b: Bucket): (r: Result<Node, Exception>)
    ensures r.Success? <==> b.Name.Some?
    ensures r.Success? ==> r.value == Node(b.Name.value, S3, b.Name.value)
  {
    match b.Name
    case None => Failure(KeyError("Name"))
    case Some(name) => Success(Node(name, S3, name))
  }

  /** The S3 `try` block (lines 50-60): a failed call or a missing
      `Buckets` appends nothing; otherwise the nodes carry the bucket name as
      both id and name and come from a prefix of the buckets, from all of
      them exactly when the block finishes; when it raises, it raised at the
      first bucket without a `Name`. */
  function S3Effect(listed: Result<ListBucketsResponse, Exception>): (e: Effect)
    ensures listed.Failure? || listed.value.Buckets.None? ==> e == Effect([], false)
    ensures forall n <- e.appended :: n.kind == S3 && n.id == n.name
    ensures listed.Success? && listed.value.Buckets.Some? ==>
      var bs := listed.value.Buckets.value;
      |e.appended| <= |bs| &&
      (forall k :: 0 <= k < |e.appended| ==> bs[k].Name == Some(e.appended[k].id)) &&
      (e.completed <==> |e.appended| == |bs|) &&
      (!e.completed ==> bs[|e.appended|].Name.None?)
  {
    match listed
    case Failure(_) => Effect([], false)
    case Success(response) =>
      match response.Buckets
      case None => Effect([], false)
      case Some(bs) =>
        MapUntilFailurePrefix(bs, BucketNode);
        MapUntilFailure(bs, BucketNode)
  }

  /** The dict built for one database instance (lines 67-71). */
  function DbNode(db: DBInstance): (r: Result<Node, Exception>)
    ensures r.Success? <==> db.DBInstanceIdentifier.Some?
    ensures r.Success? ==> r.value == Node(db.DBInstanceIdentifier.value, RDS, db.DBInstanceIdentifier.value)
  {
    match db.DBInstanceIdentifier
    case None => Failure(KeyError("DBInstanceIdentifier"))
    case Some(id) => Success(Node(id, RDS, id))
  }

  /** The RDS `try` block (lines 63-73): a failed call or a missing
      `DBInstances` appends nothing; otherwise the nodes carry the database
      identifier as both id and name and come from a prefix of the database
      instances, from all of them exactly when the block finishes; when it
      raises, it raised at the first one without an identifier. */
  function RdsEffect(described: Result<DescribeDBInstancesResponse, Exception>): (e: Effect)
    ensures described.Failure? || described.value.DBInstances.None? ==> e == Effect([], false)
    ensures forall n <- e.appended :: n.kind == RDS && n.id == n.name
    ensures described.Success? && described.value.DBInstances.Some? ==>
      var dbs := described.value.DBInstances.value;
      |e.appended| <= |dbs| &&
      (forall k :: 0 <= k < |e.appended| ==> dbs[k].DBInstanceIdentifier == Some(e.appended[k].id)) &&
      (e.completed <==> |e.appended| == |dbs|) &&
      (!e.completed ==> dbs[|e.appended|].DBInstanceIdentifier.None?)
  {
    match described
    case Failure(_) => Effect([], false)
    case Success(response) =>
      match response.DBInstances
      case None => Effect([], false)
      case Some(dbs) =>
        MapUntilFailurePrefix(dbs, DbNode);
        MapUntilFailure(dbs, DbNode)
  }

  /** A `for` loop appending the node built from each element of `xs`, where
      building a node may raise: the loop appends until it has gone through
      `xs` or a build raised, and reports which. */
  method AppendEach<T>(nodes: seq<Node>, xs: seq<T>, build: T -> Result<Node, Exception>)
    returns (result: seq<Node>, completed: bool)
    ensures result == nodes + MapUntilFailure(xs, build).appended
    ensures completed == MapUntilFailure(xs, build).completed
  {
    result := nodes;
    var i := 0;
    while i < |xs|
      invariant i <= |xs|
      invariant MapUntilFailure(xs[..i], build).completed
      invariant result == nodes + MapUntilFailure(xs[..i], build).appended
    {
      MapUntilFailureStep(xs, i, build);
      var node := build(xs[i]);
      if node.Failure? {
        return result, false;
      }
      result := result + [node.value];
      i := i + 1;
    }
    assert xs[..i] == xs;
    completed := true;
  }

  /** The two EC2 loops (lines 39-45): the nodes they leave after `nodes`
      are those they appended before finishing or raising. */
  method AppendReservations(nodes: seq<Node>, rs: seq<Reservation>)
    returns (result: seq<Node>, completed: bool)
    ensures result == nodes + ReservationsEffect(rs).appended
    ensures completed == ReservationsEffect(rs).completed
  {
    result := nodes;
    var i := 0;
    while i < |rs|
      invariant i <= |rs|
      invariant ReservationsEffect(rs[..i]).completed
      invariant result == nodes + ReservationsEffect(rs[..i]).appended
    {
      ghost var done := ReservationsEffect(rs[..i]).appended;
      if rs[i].Instances.None? {
        assert !ReservationsEffect(rs).completed && result == nodes + ReservationsEffect(rs).appended by {
          ReservationsStep(rs, i);
          assert done + [] == done;
        }
        return result, false;
      }
      var xs := rs[i].Instances.value;
      var finished;
      result, finished := AppendEach(result, xs, InstanceNode);
      ghost var here := ReservationEffect(rs[i]);
      assert here == MapUntilFailure(xs, InstanceNode);
      assert result == nodes + (done + here.appended);
      if !finished {
        assert !ReservationsEffect(rs).completed && result == nodes + ReservationsEffect(rs).appended by {
          ReservationsStep(rs, i);
        }
        return result, false;
      }
      assert ReservationsEffect(rs[..i + 1]) == Effect(done + here.appended, true) by {
        ReservationsStep(rs, i);
      }
      i := i + 1;
    }
    assert rs[..i] == rs;
    completed := true;
  }

  /** The EC2 `try` block (lines 36-46): the nodes it leaves after `nodes`
      are those its loops appended before finishing or raising. */
  method AppendEc2Nodes(nodes: seq<Node>, ec2: Result<DescribeInstancesResponse, Exception>)
    returns (result: seq<Node>)
    ensures result == nodes + Ec2Effect(ec2).appended
  {
    if ec2.Failure? || ec2.value.Reservations.None? {
      return nodes;
    }
    var completed;
    result, completed := AppendReservations(nodes, ec2.value.Reservations.value);
  }

  /** The S3 `try` block (lines 50-60). */
  method AppendS3Nodes(nodes: seq<Node>, s3: Result<ListBucketsResponse, Exception>)
    returns (result: seq<Node>)
    ensures result == nodes + S3Effect(s3).appended
  {
    if s3.Failure? || s3.value.Buckets.None? {
      return nodes;
    }
    var completed;
    result, completed := AppendEach(nodes, s3.value.Buckets.value, BucketNode);
  }

  /** The RDS `try` block (lines 63-73). */
  method AppendRdsNodes(nodes: seq<Node>, rds: Result<DescribeDBInstancesResponse, Exception>)
    returns (result: seq<Node>)
    ensures result == nodes + RdsEffect(rds).appended
  {
    if rds.Failure? || rds.value.DBInstances.None? {
      return nodes;
    }
    var completed;
    result, completed := AppendEach(nodes, rds.value.DBInstances.value, DbNode);
  }

  /** `get_aws_resources`, given the outcome of each category's API call:
      the EC2 nodes, then the S3 nodes, then the RDS nodes, each category
      contributing what its block appended before finishing or raising,
      whatever the other categories did, and no links. */
  method GetAwsResources(
      ec2: Result<DescribeInstancesResponse, Exception>,
      s3: Result<ListBucketsResponse, Exception>,
      rds: Result<DescribeDBInstancesResponse, Exception>)
    returns (resources: Resources)
    ensures resources.links == []
    ensures resources.nodes == Ec2Effect(ec2).appended + S3Effect(s3).appended + RdsEffect(rds).appended
  {
    var nodes: seq<Node> := [];
    nodes := AppendEc2Nodes(nodes, ec2);
    nodes := AppendS3Nodes(nodes, s3);
    nodes := AppendRdsNodes(nodes, rds);
    assert [] + Ec2Effect(ec2).appended == Ec2Effect(ec2).appended;
    resources := Resources(nodes, []);
  }
}
