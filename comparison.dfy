/** The JavaScript scanners and the Python aggregator read the same API
    responses. This module states where their nodes agree and where the two
    name rules part ways. */
module Comparison {
  import opened Wrappers
  import opened Inventory
  import AwsService
  import BackendMain

  /** A Python node as the JavaScript scanners would write it. */
  function AsJsNode(n: BackendMain.Node): AwsService.Node {
    AwsService.Node(Some(n.id), n.kind, Some(n.name), None)
  }

  /** Python's `next(...)` and JavaScript's `find(...)` stop at the same tag
      whenever Python does not raise. */
  lemma {:induction false} NameLookupsAgree(tags: seq<Tag>)
    requires BackendMain.FirstNameValue(tags).Success?
    ensures match BackendMain.FirstNameValue(tags).value
      case None => AwsService.FindNameTag(tags).None?
      case Some(v) => AwsService.FindNameTag(tags).Some? && AwsService.FindNameTag(tags).value.Value == Some(v)
  {
    if tags != [] && tags[0].Key != Some("Name") {
      NameLookupsAgree(tags[1..]);
    }
  }

  /** An instance Python maps to a node with a non-empty name becomes the
      same node in JavaScript. */
  lemma InstanceNodesAgree(i: Instance)
    requires BackendMain.InstanceNode(i).Success?
    requires BackendMain.InstanceNode(i).value.name != ""
    ensures AwsService.Ec2Node(i) == AsJsNode(BackendMain.InstanceNode(i).value)
  {
    NameLookupsAgree(i.Tags.GetOr([]));
  }

  /** A first `Name` tag whose value is the empty string: JavaScript's `||`
      falls back to the instance id, Python keeps the empty string. */
  lemma EmptyNameTagDiffers(i: Instance, k: nat)
    requires i.InstanceId.Some?
    requires var tags := i.Tags.GetOr([]);
      k < |tags| && tags[k] == Tag(Some("Name"), Some("")) &&
      forall m :: 0 <= m < k ==> tags[m].Key.Some? && tags[m].Key.value != "Name"
    ensures AwsService.Ec2Node(i).name == i.InstanceId
    ensures BackendMain.InstanceNode(i) == Success(BackendMain.Node(i.InstanceId.value, EC2, ""))
  {
    AwsService.Ec2NameFromFirstNameTag(i, k);
    BackendMain.InstanceNameFromFirstNameTag(i, k);
  }

  /** A first reservation without `Instances` makes Python raise before
      appending any EC2 node, while JavaScript skips that reservation and
      maps the instances of all the others. */
  lemma MissingInstancesDiffers(response: DescribeInstancesResponse)
    requires response.Reservations.Some? && |response.Reservations.value| > 0
    requires response.Reservations.value[0].Instances.None?
    ensures BackendMain.Ec2Effect(Success(response)) == BackendMain.Effect([], false)
    ensures AwsService.ScanEC2Instances(Success(response)).value == AwsService.Ec2Nodes(response.Reservations.value[1..])
  {
    var rs := response.Reservations.value;
    assert BackendMain.ReservationsEffect(rs) == BackendMain.Then(BackendMain.ReservationEffect(rs[0]), BackendMain.ReservationsEffect(rs[1..]));
    assert AwsService.Ec2Nodes(rs) == [] + AwsService.Ec2Nodes(rs[1..]);
  }

  /** When Python's EC2 loops finish without raising and no name is empty,
      both back ends produce the same EC2 nodes in the same order. */
  lemma Ec2ScansAgree(response: DescribeInstancesResponse)
    requires response.Reservations.Some?
    requires BackendMain.Ec2Effect(Success(response)).completed
    requires forall n <- BackendMain.Ec2Effect(Success(response)).appended :: n.name != ""
    ensures var js := AwsService.ScanEC2Instances(Success(response)).value;
      var py := BackendMain.Ec2Effect(Success(response)).appended;
      |js| == |py| && forall k :: 0 <= k < |py| ==> js[k] == AsJsNode(py[k])
  {
    var rs := response.Reservations.value;
    BackendMain.ReservationsEffectPrefix(rs);
    var py := BackendMain.ReservationsEffect(rs).appended;
    forall k | 0 <= k < |py| ensures AwsService.Ec2Node(AllInstances(rs)[k]) == AsJsNode(py[k]) {
      InstanceNodesAgree(AllInstances(rs)[k]);
    }
  }

  /** When every bucket has a name, both back ends produce the same S3
      nodes in the same order. */
  lemma S3ScansAgree(response: ListBucketsResponse)
    requires response.Buckets.Some?
    requires forall b <- response.Buckets.value :: b.Name.Some?
    ensures var js := AwsService.ScanS3Buckets(Success(response)).value;
      var py := BackendMain.S3Effect(Success(response)).appended;
      |js| == |py| && forall k :: 0 <= k < |py| ==> js[k] == AsJsNode(py[k])
  {
    var bs := response.Buckets.value;
    BackendMain.MapUntilFailurePrefix(bs, BackendMain.BucketNode);
  }

  /** When every database instance has an identifier, both back ends produce
      the same RDS nodes in the same order. */
  lemma RdsScansAgree(response: DescribeDBInstancesResponse)
    requires response.DBInstances.Some?
    requires forall db <- response.DBInstances.value :: db.DBInstanceIdentifier.Some?
    ensures var js := AwsService.ScanRDSInstances(Success(response)).value;
      var py := BackendMain.RdsEffect(Success(response)).appended;
      |js| == |py| && forall k :: 0 <= k < |py| ==> js[k] == AsJsNode(py[k])
  {
    var dbs := response.DBInstances.value;
    BackendMain.MapUntilFailurePrefix(dbs, BackendMain.DbNode);
  }
}
