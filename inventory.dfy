/** The shapes of the cloud inventory API responses that both back ends
    normalise, the resource types they emit and the exceptions they raise.
    A key the response leaves out (or a field that is `undefined` in
    JavaScript) is `None`. */
module Inventory {
  import opened Wrappers

  /** The `type` tag written on every node. */
  datatype ResourceType = EC2 | S3 | RDS | Lambda {
    function Label(): string {
      match this
      case EC2 => "EC2"
      case S3 => "S3"
      case RDS => "RDS"
      case Lambda => "Lambda"
    }
  }

  /** An exception as either language raises it: a class name and a message. */
  datatype Exception = Exception(name: string, message: string)

  /** What Python raises for `d['key']` when `key` is missing. */
  function KeyError(key: string): Exception {
    Exception("KeyError", "'" + key + "'")
  }

  // DescribeInstances
  datatype Tag = Tag(Key: Option<string>, Value: Option<string>)
  datatype Instance = Instance(InstanceId: Option<string>, Tags: Option<seq<Tag>>)
  datatype Reservation = Reservation(Instances: Option<seq<Instance>>)
  datatype DescribeInstancesResponse = DescribeInstancesResponse(Reservations: Option<seq<Reservation>>)

  // ListBuckets
  datatype Bucket = Bucket(Name: Option<string>)
  datatype ListBucketsResponse = ListBucketsResponse(Buckets: Option<seq<Bucket>>)

  // DescribeDBInstances
  datatype DBInstance = DBInstance(DBInstanceIdentifier: Option<string>)
  datatype DescribeDBInstancesResponse = DescribeDBInstancesResponse(DBInstances: Option<seq<DBInstance>>)

  // ListFunctions
  datatype FunctionConfiguration = FunctionConfiguration(
    FunctionArn: Option<string>,
    FunctionName: Option<string>,
    Runtime: Option<string>,
    MemorySize: Option<int>,
    Timeout: Option<int>)
  datatype ListFunctionsResponse = ListFunctionsResponse(Functions: Option<seq<FunctionConfiguration>>)

  /** The instances of one reservation, an absent list read as empty. */
  function InstancesOf(r: Reservation): seq<Instance> {
    r.Instances.GetOr([])
  }

  /** The number of instances over all reservations, counted one reservation
      at a time. */
  function InstanceCount(rs: seq<Reservation>): nat {
    if rs == [] then 0 else |InstancesOf(rs[0])| + InstanceCount(rs[1..])
  }

  /** All instances of all reservations, reservation by reservation. */
  function AllInstances(rs: seq<Reservation>): (xs: seq<Instance>)
    ensures |xs| == InstanceCount(rs)
  {
    if rs == [] then [] else InstancesOf(rs[0]) + AllInstances(rs[1..])
  }

  /** Instance `j` of reservation `i` sits in `AllInstances(rs)` after the
      instances of the `i` reservations before it. */
  lemma {:induction false} AllInstancesAt(rs: seq<Reservation>, i: nat, j: nat)
    requires i < |rs| && j < |InstancesOf(rs[i])|
    ensures InstanceCount(rs[..i]) + j < |AllInstances(rs)|
    ensures AllInstances(rs)[InstanceCount(rs[..i]) + j] == InstancesOf(rs[i])[j]
  {
    if i > 0 {
      AllInstancesAt(rs[1..], i - 1, j);
      assert rs[..i][1..] == rs[1..][..i - 1];
    }
  }
}
