# Permission bookkeeping of HandledPermissionsActivity

This project models the permission bookkeeping of the Android base activity
`HandledPermissionsActivity` in Dafny and proves what it does. An app declares
the permission ids it needs with `AddPermission` and `AddPermissions`. It calls
`CheckPermissions` once. That call records the current status of every declared
id, asks the platform, in one batched request, for the ids that are denied, and
closes the list of ids. The platform's answer arrives through
`onRequestPermissionsResult`, which overwrites the statuses it names.
`GetPermissionStatus` reports an id's last known status and treats an unknown id
as denied.

The model is the class `HandledPermissionsActivity` in module
`HandledPermissions` (`handled_permissions.dfy`). Its fields are those of the
source:

- `permissions`: a `seq`, the ordered list with repeats;
- `permissionCodes` and `permissionStatus`: `map`s from id to `int`;
- `permissionsChecked`: the one-way lock.

A ghost field `requests` logs every batch sent to the platform.

Statuses are plain integers, as in the source. `PERMISSION_GRANTED` is 0 and
`PERMISSION_DENIED` is -1, the values of Android's `PackageManager` constants.
The request code is 100.

The platform calls are replaced:

- `ContextCompat.checkSelfPermission` becomes a total function
  `check: PermissionId -> int` that `CheckPermissions` takes as a parameter.
- `ActivityCompat.requestPermissions` becomes an append of
  `Request(batch, 100)` to the `requests` log.

Each method is proved against specification functions:

- `CodesAfterAdds`: the index after one single add per id, in order.
- `Needed`: the tracked ids whose check is DENIED, in order and with repeats.
- `Checked`: the statuses a check pass records.
- `Delivered`: the statuses a result callback writes; a later write wins.
- `IsLastPosition` / `LastPosition`: the 1-based position of an id's last
  occurrence.

Lemmas prove the properties of these functions. The object invariant `Valid()`
says that the index maps exactly the tracked ids, each to the 1-based position
of its last occurrence. The constructor establishes it and every add keeps it.
Three client methods use only these contracts:

- `StartUpScenario` replays the sample app's start-up
  (`app/.../TestApp.java:22-29`).
- `PartlyGrantedScenario` checks three ids of which only the first is granted.
- `ResultScenario` delivers a platform answer.

Where the source's comments and its code differ, the model follows the code.
Line numbers refer to `HandledPermissionsActivity.java`.

- `CheckPermissions` sets the lock at line 111, after the request is sent.
- The result callback records a status for every id it is given, including ids
  that were never added. No invariant ties the status map to the tracked list.
- The Javadoc at lines 73-74 says `GetPermissionStatus` answers only DENIED
  until `CheckPermissions` is called. The code answers whatever the status map
  holds, so an earlier callback can already make an id read as granted.
- The Javadoc at line 77 says `GetPermissionStatus` returns GRANTED or DENIED.
  The code returns whatever integer was stored.
- The Javadoc at lines 88-89 says `CheckPermissions` should be called only once.
  Nothing in the code enforces that: each call re-checks every id and may send
  another request.
- A repeated id is checked twice, and when it is denied it appears twice in the
  batch.

## Model

| member | source | states |
|---|---|---|
| `HandledPermissions.HandledPermissionsActivity.constructor` | PermissionHandler/src/main/java/com/robotictechtn/permissionhandler/HandledPermissionsActivity.java:31-37 | a new activity tracks nothing, has no codes or statuses, is unlocked, has sent no request, and satisfies the index invariant |
| `HandledPermissions.HandledPermissionsActivity.AddPermission` | PermissionHandler/src/main/java/com/robotictechtn/permissionhandler/HandledPermissionsActivity.java:45-50 | when locked, nothing changes; otherwise the id is appended after the earlier ids and its code becomes the new length, so a duplicate gets the later position; statuses and the lock are untouched; the index invariant is kept |
| `HandledPermissions.HandledPermissionsActivity.AddPermissions` | PermissionHandler/src/main/java/com/robotictechtn/permissionhandler/HandledPermissionsActivity.java:59-69 | when locked, the whole batch is ignored; otherwise the list becomes old list + ids and the codes are those left by one single add per id in order; afterwards every code is its id's last 1-based position |
| `HandledPermissions.HandledPermissionsActivity.GetPermissionStatus` | PermissionHandler/src/main/java/com/robotictechtn/permissionhandler/HandledPermissionsActivity.java:79-83 | fails closed: an id with no recorded status reads as DENIED, and any answer other than DENIED is that id's recorded status; it reads only the status map and never fails |
| `HandledPermissions.HandledPermissionsActivity.CheckPermissions` | PermissionHandler/src/main/java/com/robotictechtn/permissionhandler/HandledPermissionsActivity.java:91-112 | every tracked id's status becomes its check result and every other id's status is unchanged; exactly one request carrying `Needed` and code 100 is logged when `Needed` is non-empty, and none otherwise; the activity is locked; the list and codes are untouched |
| `HandledPermissions.HandledPermissionsActivity.OnRequestPermissionsResult` | PermissionHandler/src/main/java/com/robotictechtn/permissionhandler/HandledPermissionsActivity.java:123-136 | with request code 100, the status map gains the delivered pairs and each delivered id reads as the result at its last occurrence; with any other code nothing changes; an id outside the answer keeps its status either way; the list, codes and lock are never touched |
| `HandledPermissions.LastPosition` | PermissionHandler/src/main/java/com/robotictechtn/permissionhandler/HandledPermissionsActivity.java:48-49 | for a tracked id, returns the 1-based position of its last occurrence: that slot holds the id and no later slot does |
| `HandledPermissions.AddKeepsIndex` | PermissionHandler/src/main/java/com/robotictechtn/permissionhandler/HandledPermissionsActivity.java:48-49 | appending an id and setting its code to the new length keeps the index invariant: exactly the tracked ids have codes, each the last position |
| `HandledPermissions.AddsKeepIndex` | PermissionHandler/src/main/java/com/robotictechtn/permissionhandler/HandledPermissionsActivity.java:61-68 | adding a whole list one id at a time keeps the index invariant for the extended list |
| `HandledPermissions.AddsCompose` | PermissionHandler/src/main/java/com/robotictechtn/permissionhandler/HandledPermissionsActivity.java:59-68 | adding a + b gives the same codes as adding a and then adding b, so a batch add equals the sequence of single adds |
| `HandledPermissions.NeededExtend` | PermissionHandler/src/main/java/com/robotictechtn/permissionhandler/HandledPermissionsActivity.java:95-100 | checking one more tracked id appends it to the batch exactly when it checks as DENIED |
| `HandledPermissions.NeededOfConcat` | PermissionHandler/src/main/java/com/robotictechtn/permissionhandler/HandledPermissionsActivity.java:94-104 | the batch keeps the list's order: the batch of s + t is the batch of s followed by the batch of t |
| `HandledPermissions.NeededCount` | PermissionHandler/src/main/java/com/robotictechtn/permissionhandler/HandledPermissionsActivity.java:94-104 | an id occurs in the batch as often as it is tracked when it checks as DENIED, and not at all otherwise |
| `HandledPermissions.NeededMembers` | PermissionHandler/src/main/java/com/robotictechtn/permissionhandler/HandledPermissionsActivity.java:95-100 | an id is in the batch if and only if it is tracked and checks as DENIED |
| `HandledPermissions.NoRequestIffNoneDenied` | PermissionHandler/src/main/java/com/robotictechtn/permissionhandler/HandledPermissionsActivity.java:106-110 | the batch is empty, so no request is sent, if and only if no tracked id checks as DENIED |
| `HandledPermissions.NeededAllDenied` | PermissionHandler/src/main/java/com/robotictechtn/permissionhandler/HandledPermissionsActivity.java:94-110 | when every tracked id checks as DENIED, the request carries the whole list in its original order |
| `HandledPermissions.CheckedExtend` | PermissionHandler/src/main/java/com/robotictechtn/permissionhandler/HandledPermissionsActivity.java:95-96 | checking one more tracked id overwrites that id's status with its check result and leaves every other status alone |
| `HandledPermissions.DeliveredLastWins` | PermissionHandler/src/main/java/com/robotictechtn/permissionhandler/HandledPermissionsActivity.java:126-127 | the callback writes a status for exactly the ids it is given, and a repeated id keeps the result paired with its last occurrence |

## Left out

- Logging (`Log.d`) is left out. It has no effect on the state.
- The call to `super.onRequestPermissionsResult` and the `AppCompatActivity`
  lifecycle are left out. They are framework plumbing.
- The platform is not modelled. Its check is a parameter and its request is a
  log entry. The model does not tie a later callback to an issued request, and
  neither does the source.
- The source passes `getApplicationContext()` and `this` to the platform calls.
  Neither is modelled.
- `OnRequestPermissionsResult`: with request code 100 and fewer results than
  ids, the source throws an index exception part-way through the loop. The
  model requires at least as many results as ids in that case, so the partial
  update is not modelled. The platform always delivers equal-length arrays.
- `null` ids are not modelled: Dafny strings are never null. In the source, a
  null id makes the `Hashtable` calls throw.
- `AddPermissions` takes a Java `Iterable`; the model takes a `seq` of ids.
- The `temp != null` test at line 109 is always true and is not modelled.
- The user interface of the sample app (`app/.../TestApp.java`) is not part of
  this model. Only its start-up sequence appears, as `StartUpScenario`.
- Concurrency is not modelled. The platform callback is a later, sequential
  method call.
