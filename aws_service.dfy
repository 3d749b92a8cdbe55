/** The JavaScript scanners of backend/services/aws-service.js. Each one
    receives the outcome of its SDK `send` call (the response, or the error
    the call rejected with) and reduces it to a list of graph nodes. A
    scanner's own outcome is a `Result`: `Success` is the value its promise
    resolves to, `Failure` the error it rejects with. */
module AwsService {
  import opened Wrappers
  import opened Inventory

  /** The `details` bag, attached by the Lambda scanner only. */
  datatype Details = Details(runtime: Option<string>, memory: Option<int>, timeout: Option<int>)

  /** A node `{id, type, name[, details]}`, its `type` held in `kind`.
      `id` and `name` are copied from the response and are `None`
      (JavaScript `undefined`) when the response leaves the field out. */
  datatype Node = Node(id: Option<string>, kind: ResourceType, name: Option<string>, details: Option<Details>)

  /** JavaScript truthiness of a value that is a string or `undefined`. */
  predicate Truthy(s: Option<string>) {
    s.Some? && s.value != ""
  }

  /** The search of a tag list for a name: the first tag whose `Key` is
      `Name`, or `undefined` when there is none. */
  function FindNameTag(tags: seq<Tag>): (t: Option<Tag>)
    ensures t.Some? ==> t.value in tags && t.value.Key == Some("Name")
    ensures t.None? <==> forall m :: 0 <= m < |tags| ==> tags[m].Key != Some("Name")
  {
    if tags == [] then None
    else if tags[0].Key == Some("Name") then Some(tags[0])
    else FindNameTag(tags[1..])
  }

  /** `find` returns the tag at the first index keyed `Name`. */
  lemma {:induction false} FindNameTagFirst(tags: seq<Tag>, k: nat)
    requires k < |tags| && tags[k].Key == Some("Name")
    requires forall m :: 0 <= m < k ==> tags[m].Key != Some("Name")
    ensures FindNameTag(tags) == Some(tags[k])
  {
    if k > 0 {
      FindNameTagFirst(tags[1..], k - 1);
    }
  }

  /** The name given to an instance: the `Value` of its first `Name` tag
      when that is truthy, and otherwise its instance id; an instance
      without `Tags` falls back to the id as well. */
  function Ec2Name(i: Instance): (n: Option<string>)
    ensures n == i.InstanceId || (Truthy(n) && exists t <- i.Tags.GetOr([]) :: t.Key == Some("Name") && t.Value == n)
  {
    var tagValue :=
      match i.Tags
      case None => None
      case Some(tags) =>
        match FindNameTag(tags)
        case None => None
        case Some(t) => t.Value;
    if Truthy(tagValue) then tagValue else i.InstanceId
  }

  /** The node of an instance: identified by its instance id, of type EC2,
      without details, and named by the id or by a non-empty name. */
  function Ec2Node(i: Instance): (n: Node)
    ensures n.id == i.InstanceId && n.kind == EC2 && n.details.None?
    ensures n.name == n.id || Truthy(n.name)
  {
    Node(i.InstanceId, EC2, Ec2Name(i), None)
  }

  /** The name of an EC2 node is the value of the first `Name` tag when that
      value is a non-empty string, and the instance id otherwise. */
  lemma Ec2NameFromFirstNameTag(i: Instance, k: nat)
    requires i.Tags.Some? && k < |i.Tags.value| && i.Tags.value[k].Key == Some("Name")
    requires forall m :: 0 <= m < k ==> i.Tags.value[m].Key != Some("Name")
    ensures Ec2Node(i).name == if Truthy(i.Tags.value[k].Value) then i.Tags.value[k].Value else i.InstanceId
  {
    FindNameTagFirst(i.Tags.value, k);
  }

  /** Without a `Name` tag (or without tags) the name is the instance id. */
  lemma Ec2NameWithoutNameTag(i: Instance)
    requires i.Tags.Some? ==> forall m :: 0 <= m < |i.Tags.value| ==> i.Tags.value[m].Key != Some("Name")
    ensures Ec2Node(i).name == i.InstanceId
  {
  }

  /** The nodes of all reservations, flattened in order; a reservation
      without `Instances` contributes none. */
  function Ec2Nodes(rs: seq<Reservation>): (ns: seq<Node>)
    ensures |ns| == InstanceCount(rs)
    ensures forall k :: 0 <= k < |ns| ==> ns[k] == Ec2Node(AllInstances(rs)[k])
  {
    if rs == [] then []
    else
      var xs := InstancesOf(rs[0]);
      seq(|xs|, k requires 0 <= k < |xs| => Ec2Node(xs[k])) + Ec2Nodes(rs[1..])
  }

  /** `scanEC2Instances`: one node per instance, reservation by reservation;
      an error, a missing `Reservations` or a missing `Instances` yields
      nothing, and the scanner never rejects. */
  function ScanEC2Instances(sent: Result<DescribeInstancesResponse, Exception>): (r: Result<seq<Node>, Exception>)
    ensures r.Success?
    ensures sent.Failure? ==> r.value == []
    ensures sent.Success? && sent.value.Reservations.None? ==> r.value == []
    ensures sent.Success? && sent.value.Reservations.Some? ==>
      var rs := sent.value.Reservations.value;
      |r.value| == InstanceCount(rs) &&
      forall k :: 0 <= k < |r.value| ==> r.value[k] == Ec2Node(AllInstances(rs)[k])
    ensures forall n <- r.value :: n.kind == EC2 && n.details.None?
  {
    match sent
    case Failure(_) => Success([])
    case Success(response) =>
      match response.Reservations
      case None => Success([])
      case Some(rs) => Success(Ec2Nodes(rs))
  }

  /** Instance `j` of reservation `i` becomes the node after the nodes of all
      instances of the reservations before `i`. */
  lemma Ec2NodeOrder(response: DescribeInstancesResponse, i: nat, j: nat)
    requires response.Reservations.Some?
    requires i < |response.Reservations.value|
    requires j < |InstancesOf(response.Reservations.value[i])|
    ensures var rs := response.Reservations.value;
      var nodes := ScanEC2Instances(Success(response)).value;
      InstanceCount(rs[..i]) + j < |nodes| &&
      nodes[InstanceCount(rs[..i]) + j] == Ec2Node(InstancesOf(rs[i])[j])
  {
    AllInstancesAt(response.Reservations.value, i, j);
  }

  function S3Node(b: Bucket): Node {
    Node(b.Name, S3, b.Name, None)
  }

  /** `scanS3Buckets`: one node per bucket, named and identified by the
      bucket name; an error or a missing `Buckets` yields nothing. */
  function ScanS3Buckets(sent: Result<ListBucketsResponse, Exception>): (r: Result<seq<Node>, Exception>)
    ensures r.Success?
    ensures sent.Failure? || sent.value.Buckets.None? ==> r.value == []
    ensures sent.Success? && sent.value.Buckets.Some? ==>
      var bs := sent.value.Buckets.value;
      |r.value| == |bs| && forall k :: 0 <= k < |bs| ==> r.value[k].id == bs[k].Name
    ensures forall n <- r.value :: n.kind == S3 && n.id == n.name && n.details.None?
  {
    match sent
    case Failure(_) => Success([])
    case Success(response) =>
      match response.Buckets
      case None => Success([])
      case Some(bs) => Success(seq(|bs|, k requires 0 <= k < |bs| => S3Node(bs[k])))
  }

  function RdsNode(db: DBInstance): Node {
    Node(db.DBInstanceIdentifier, RDS, db.DBInstanceIdentifier, None)
  }

  /** `scanRDSInstances`: one node per database instance, named and
      identified by its identifier; an error or a missing `DBInstances`
      yields nothing. */
  function ScanRDSInstances(sent: Result<DescribeDBInstancesResponse, Exception>): (r: Result<seq<Node>, Exception>)
    ensures r.Success?
    ensures sent.Failure? || sent.value.DBInstances.None? ==> r.value == []
    ensures sent.Success? && sent.value.DBInstances.Some? ==>
      var dbs := sent.value.DBInstances.value;
      |r.value| == |dbs| && forall k :: 0 <= k < |dbs| ==> r.value[k].id == dbs[k].DBInstanceIdentifier
    ensures forall n <- r.value :: n.kind == RDS && n.id == n.name && n.details.None?
  {
    match sent
    case Failure(_) => Success([])
    case Success(response) =>
      match response.DBInstances
      case None => Success([])
      case Some(dbs) => Success(seq(|dbs|, k requires 0 <= k < |dbs| => RdsNode(dbs[k])))
  }

  /** The fields of the credentials object the Lambda scanner reads. */
  datatype Credentials = Credentials(accessKeyId: Option<string>, secretAccessKey: Option<string>, region: Option<string>)

  predicate CredentialsPresent(c: Credentials) {
    Truthy(c.accessKeyId) && Truthy(c.secretAccessKey) && Truthy(c.region)
  }

  /** The error the Lambda scanner rejects with when a credential field is
      missing or empty. */
  const InvalidCredentials := Exception("Error", "Invalid credentials or region for Lambda")

  function LambdaNode(f: FunctionConfiguration): Node {
    Node(f.FunctionArn, Lambda, f.FunctionName, Some(Details(f.Runtime, f.MemorySize, f.Timeout)))
  }

  /** `scanLambdaFunctions`: rejects with `InvalidCredentials` whatever the
      response when a credential field is missing or empty, rejects with the
      SDK's own error when the call fails, resolves to `undefined` (`None`)
      when `Functions` is missing, and otherwise to one node per function
      carrying its runtime, memory size and timeout. */
  function ScanLambdaFunctions(c: Credentials, sent: Result<ListFunctionsResponse, Exception>)
    : (r: Result<Option<seq<Node>>, Exception>)
    ensures !CredentialsPresent(c) ==> r == Failure(InvalidCredentials)
    ensures CredentialsPresent(c) && sent.Failure? ==> r == Failure(sent.error)
    ensures CredentialsPresent(c) && sent.Success? ==>
      r.Success? && (r.value.None? <==> sent.value.Functions.None?)
    ensures r.Success? && r.value.Some? ==>
      var fs := sent.value.Functions.value;
      |r.value.value| == |fs| &&
      forall k :: 0 <= k < |fs| ==>
        var n := r.value.value[k];
        n.kind == Lambda && n.id == fs[k].FunctionArn && n.name == fs[k].FunctionName &&
        n.details == Some(Details(fs[k].Runtime, fs[k].MemorySize, fs[k].Timeout))
  {
    if !CredentialsPresent(c) then Failure(InvalidCredentials)
    else
      match sent
      case Failure(e) => Failure(e)
      case Success(response) =>
        match response.Functions
        case None => Success(None)
        case Some(fs) => Success(Some(seq(|fs|, k requires 0 <= k < |fs| => LambdaNode(fs[k]))))
  }
}
