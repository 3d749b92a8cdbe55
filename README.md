# Cloud inventory normalisation

This project models how the AWS scanner turns cloud inventory API responses
into its flat list of graph nodes `{id, type, name[, details]}`. The
repository does this twice, and the model covers both:

- **JavaScript scanners** (`backend/services/aws-service.js`), module
  `AwsService`. `scanEC2Instances`, `scanS3Buckets` and `scanRDSInstances`
  each map one response to nodes and swallow every error. `scanLambdaFunctions`
  checks the credentials first, rethrows errors and attaches a `details` bag.
  Each scanner is a pure function of the outcome of its SDK `send` call. The
  result is a `Result`: `Success` is the value the promise resolves to,
  `Failure` the error it rejects with.
- **Python aggregator** `get_aws_resources` (`backend/main.py`), module
  `BackendMain`. It appends node dicts inside nested `for` loops, in the
  order EC2, S3, RDS. Each category sits in its own `try`/`except`, and
  `links` is always empty. It is modelled as methods with loops. Each
  `try` block is one method (`AppendEc2Nodes`, `AppendS3Nodes`,
  `AppendRdsNodes`) and `GetAwsResources` runs the three in order. An
  exception is an early return: a block method returns the list unchanged
  when the API call failed or its top-level key is missing, and the loop
  methods (`AppendEach`, `AppendReservations`) return what they appended so
  far together with `completed == false` when building a node raised or a
  reservation has no `Instances`. Each method is proved against a specification function. The
  function gives the `Effect` of the block: the nodes it appended and
  whether it finished or raised.
- Module `Inventory` holds the response shapes both back ends read
  (`Reservations`/`Instances`/`Tags`, `Buckets`, `DBInstances`,
  `Functions`). A key the response leaves out, or a JavaScript field that is
  `undefined`, is `None`. Module `Comparison` states where the two back ends
  agree and where their name rules differ.

Behaviour of the code worth noting, which the model follows:
- A record without its id is not skipped. JavaScript emits a node whose `id`
  is `undefined`. Python raises `KeyError`, which ends that category's loop.
- A failed category does not always contribute nothing. In Python it keeps
  the nodes it appended before the exception, so it contributes a prefix of
  its records.
- The display name does not always fall back to the id when the `Name` tag
  is unusable. Python keeps an empty `Name` value. JavaScript falls back to
  the id only because of `||`.
- A reservation without `Instances` is not treated alike. JavaScript skips
  it and maps the other reservations. Python raises `KeyError`, which drops
  that reservation and every later one from the EC2 block.
- Failures are not always isolated. The JavaScript Lambda scanner rethrows
  its error instead of returning an empty list.
- Node ids are not deduplicated and are not guaranteed to be unique.

## Model

A few definitions have no contract of their own: the JavaScript `S3Node`,
`RdsNode`, `LambdaNode` and `Truthy`, and the Python `Emit`. What they
compute is stated in the rows that name them.

| member | source | states |
|---|---|---|
| `AwsService.FindNameTag` | backend/services/aws-service.js:22 | `find` returns a tag of the list keyed `Name`, and returns nothing exactly when no tag is keyed `Name` |
| `AwsService.FindNameTagFirst` | backend/services/aws-service.js:22 | `find` returns the first tag keyed `Name` |
| `AwsService.Ec2Name` | backend/services/aws-service.js:22 | an EC2 name is the `InstanceId` or a non-empty `Value` of a tag keyed `Name` |
| `AwsService.Ec2Node` | backend/services/aws-service.js:19-23 | an EC2 node has id = `InstanceId`, type EC2 and no details, and is named by its id or by a non-empty name |
| `AwsService.Ec2NameFromFirstNameTag` | backend/services/aws-service.js:22 | `Ec2Name` with `Truthy`: an EC2 name is the first `Name` tag's value when that value is a non-empty string, otherwise the `InstanceId` (so an empty value falls back) |
| `AwsService.Ec2NameWithoutNameTag` | backend/services/aws-service.js:22 | `Ec2Name`: without `Tags` or without a `Name` tag the name is the `InstanceId` |
| `AwsService.Ec2Nodes` | backend/services/aws-service.js:18-24 | the flatMap yields one node per instance over all reservations (a reservation without `Instances` counts as none), the k-th node is `Ec2Node` of the k-th instance in reservation order |
| `AwsService.ScanEC2Instances` | backend/services/aws-service.js:13-29 | never rejects; a failed call or a missing `Reservations` yields `[]`; otherwise one node per instance in order; every node has type EC2 and no details |
| `AwsService.Ec2NodeOrder` | backend/services/aws-service.js:18-24 | instance j of reservation i is the j-th node after the nodes of all instances of reservations 0..i-1 (index `InstanceCount(rs[..i]) + j`) |
| `AwsService.ScanS3Buckets` | backend/services/aws-service.js:32-46 | never rejects; failure or missing `Buckets` yields `[]`; one node per bucket (`S3Node`) with id = the bucket `Name`; every node has type S3, id == name and no details |
| `AwsService.ScanRDSInstances` | backend/services/aws-service.js:49-63 | never rejects; failure or missing `DBInstances` yields `[]`; one node per DB instance (`RdsNode`) with id = `DBInstanceIdentifier`; type RDS, id == name, no details |
| `AwsService.ScanLambdaFunctions` | backend/services/aws-service.js:68-135 | a missing or empty `accessKeyId`, `secretAccessKey` or `region` rejects with the credentials error whatever the response; a failed call rejects with the error the SDK call rejected with; a missing `Functions` resolves to `undefined`; otherwise one node per function (`LambdaNode`) with id = `FunctionArn`, name = `FunctionName`, type Lambda and details {runtime, memory, timeout} |
| `Inventory.AllInstances` | backend/services/aws-service.js:18-19 | the instances of all reservations, concatenated, number exactly the instance count |
| `Inventory.AllInstancesAt` | backend/main.py:39-40 | instance j of reservation i comes after the instances of all earlier reservations |
| `BackendMain.Then` | backend/main.py:39-45 | one loop iteration after another (the loops at lines 39-45, 53-58 and 66-71): what the first appended is kept whatever the second does, and the pair finishes exactly when both finish |
| `BackendMain.MapUntilFailure` | backend/main.py:53-58 | a loop appending one built node per element appends at most one node per element, and exactly one per element when it finishes |
| `BackendMain.MapUntilFailurePrefix` | backend/main.py:53-58 | `MapUntilFailure`, with `Then` and `Emit`: a Python loop that appends one built node per element appends the nodes of a prefix of its input, finishes exactly when it appended one per element, and otherwise stopped at the element whose node raised |
| `BackendMain.FirstNameValue` | backend/main.py:44 | a name the generator yields is the `Value` of a tag keyed `Name`; what it raises is a `KeyError` for `Key` or `Value` |
| `BackendMain.FirstNameValueAt` | backend/main.py:44 | `FirstNameValue`: the generator yields the `Value` of the first tag keyed `Name`, even an empty string, or raises `KeyError` when that tag has no `Value` |
| `BackendMain.FirstNameValueAbsent` | backend/main.py:44 | when every tag has a `Key` and none is keyed `Name`, the generator yields nothing, so `next` falls back to its default |
| `BackendMain.FirstNameValueSucceeds` | backend/main.py:44 | the `Name` lookup raises exactly when a key it reads is missing: the `Key` of a tag up to and including the first one keyed `Name`, or that tag's `Value` |
| `BackendMain.InstanceNode` | backend/main.py:41-45 | an EC2 dict is built exactly when the instance has `InstanceId` and the `Name` lookup reads no missing key; it then has that id and type EC2 |
| `BackendMain.InstanceNameFromFirstNameTag` | backend/main.py:41-45 | an EC2 dict's name is the first `Name` tag's value, kept even when empty |
| `BackendMain.InstanceNameWithoutNameTag` | backend/main.py:41-45 | when every tag has a `Key` and none is keyed `Name`, or without `Tags` (read as `[]`), the name is the `InstanceId` |
| `BackendMain.ReservationEffect` | backend/main.py:40-45 | a reservation without `Instances` raises before appending; otherwise the inner loop appends at most one node per instance, one per instance when it finishes |
| `BackendMain.ReservationsEffect` | backend/main.py:39-45 | the two EC2 loops append at most one node per instance, and exactly one per instance when they finish |
| `BackendMain.ReservationsEffectNodeAt` | backend/main.py:39-45 | the k-th EC2 node is the dict built from the k-th instance in reservation-then-instance order |
| `BackendMain.ReservationsEffectPrefix` | backend/main.py:39-45 | `ReservationsEffect` and `ReservationEffect`: the EC2 loops append the nodes of a prefix of all instances, in reservation-then-instance order; when they finish without raising, there is one node per instance; when they raise, they raised in some reservation after all earlier ones finished, keeping the earlier reservations' nodes and what that reservation appended |
| `BackendMain.ReservationsEffectStops` | backend/main.py:39-45 | when the EC2 loops raise, there is a reservation whose inner loop raised after all earlier reservations finished, and the nodes kept are the earlier reservations' nodes followed by what it appended |
| `BackendMain.ReservationsEffectCompletes` | backend/main.py:39-45 | the EC2 loops finish exactly when every reservation has `Instances` and every instance has `InstanceId` and the keys its `Name` lookup reads; they then append one node per instance |
| `BackendMain.Ec2Effect` | backend/main.py:36-46 | a failed `describe_instances` or a missing `Reservations` raises before anything is appended; every appended node has type EC2 |
| `BackendMain.BucketNode` | backend/main.py:54-58 | a bucket dict is built exactly when the bucket has a `Name`, and then has id == name == that `Name` and type S3 |
| `BackendMain.S3Effect` | backend/main.py:50-60 | a failed `list_buckets` or a missing `Buckets` raises before anything is appended; every S3 node has id == name; the S3 nodes come from a prefix of the buckets, and from all of them exactly when the block finishes; a raise happens at the first bucket without a `Name` |
| `BackendMain.DbNode` | backend/main.py:67-71 | a database dict is built exactly when `DBInstanceIdentifier` is present, and then has id == name == that identifier and type RDS |
| `BackendMain.RdsEffect` | backend/main.py:63-73 | a failed `describe_db_instances` or a missing `DBInstances` raises before anything is appended; every RDS node has id == name; the RDS nodes come from a prefix of the database instances, and from all of them exactly when the block finishes; a raise happens at the first one without a `DBInstanceIdentifier` |
| `BackendMain.AppendEach` | backend/main.py:40-45 | a `for` loop appending one built node per element leaves the old list plus exactly the nodes built before the first element whose build raised, and reports whether it went through all elements |
| `BackendMain.AppendReservations` | backend/main.py:39-45 | after the two EC2 loops, the node list is the old list plus exactly what they appended before finishing or raising, and they report whether they finished |
| `BackendMain.AppendEc2Nodes` | backend/main.py:36-46 | after the EC2 `try`, the node list is the old list plus exactly what the loops appended before finishing or raising |
| `BackendMain.AppendS3Nodes` | backend/main.py:50-60 | after the S3 `try`, the node list is the old list plus exactly what its loop appended before finishing or raising |
| `BackendMain.AppendRdsNodes` | backend/main.py:63-73 | after the RDS `try`, the node list is the old list plus exactly what its loop appended before finishing or raising |
| `BackendMain.GetAwsResources` | backend/main.py:23-75 | the nodes are the EC2 contribution, then the S3 one, then the RDS one, each a function of its own category's outcome only (a failure in one does not stop the next); links are empty |
| `Comparison.NameLookupsAgree` | backend/main.py:44 | when Python's `Name` lookup does not raise, JavaScript's `find` stops at the same tag with the same value |
| `Comparison.InstanceNodesAgree` | backend/services/aws-service.js:19-23 | an instance Python maps to a node with a non-empty name gives the same node in JavaScript |
| `Comparison.EmptyNameTagDiffers` | backend/services/aws-service.js:22 | for a first `Name` tag with empty value, JavaScript names the node by its `InstanceId` and Python names it `""` |
| `Comparison.MissingInstancesDiffers` | backend/main.py:39-40 | when the first reservation has no `Instances`, Python raises before appending any EC2 node, while JavaScript skips it and maps the instances of the other reservations |
| `Comparison.Ec2ScansAgree` | backend/main.py:39-45 | when Python's EC2 loops finish and no name is empty, both back ends give the same EC2 nodes in the same order |
| `Comparison.S3ScansAgree` | backend/main.py:53-58 | when every bucket has a `Name`, both back ends give the same S3 nodes in the same order |
| `Comparison.RdsScansAgree` | backend/main.py:66-71 | when every DB instance has an identifier, both back ends give the same RDS nodes in the same order |

## Left out

- SDK and boto3 calls (client construction, `send`, `describe_*`, `list_*`): foreign library calls. Each call's outcome is an input, either a response or an exception.
- The JavaScript clients are constructed before each `try` (aws-service.js lines 14, 33 and 50). So are the Lambda client (lines 84-91) and the boto3 session (main.py lines 24-28). An exception from a constructor is not modelled.
- `null` elements inside response arrays are not modelled. They would raise a `TypeError` inside the mappers. Records are modelled as objects whose keys may be absent, and JavaScript `null` is not told apart from `undefined`.
- Values of unexpected types are not modelled, for example a `Tags` value that is not a list.
- Logging, `print`, the `process.env` debug flags and the Lambda error-name diagnostics: side effects with no result. The Python `Effect` records only whether a block raised, not the exception's text.
- `backend/server.js`: Express handling and the `Promise.all` fan-out (concurrency). Its concatenation of the three JavaScript scanners' lists has the same order as `GetAwsResources`. Note that it passes credentials nested under `credentials`, which the Lambda scanner's up-front check would reject; the route never calls that scanner.
- The FastAPI route, CORS setup and uvicorn startup in `backend/main.py`: HTTP plumbing.
- The front end (`src/`): React state, the axios request, and the D3 force layout, drawing, colours and dragging.
