/**
 Permission bookkeeping of an Android activity: a list of permission ids the
 app declares, a 1-based index of those ids, the last known status of each id,
 and a one-way flag that closes the list once the permissions have been checked.

 The platform calls the activity makes are replaced: the check of one permission
 is a total function passed to CheckPermissions, and the batched request the
 activity sends to the platform is appended to a ghost log of requests.
 */
module HandledPermissions {

  type PermissionId = string

  /** PackageManager.PERMISSION_GRANTED */
  const PERMISSION_GRANTED: int := 0
  /** PackageManager.PERMISSION_DENIED */
  const PERMISSION_DENIED: int := -1
  /** The request code the activity passes with its batched request. */
  const PERMISSION_REQUEST_CODE: int := 100

  /** One call of the platform's requestPermissions: the batch and its request code. */
  datatype Request = Request(permissions: seq<PermissionId>, requestCode: int)

  // ---------------------------------------------------------------------------
  // Positions: the 1-based index the activity keeps for each id
  // ---------------------------------------------------------------------------

  /** p is the 1-based position of the last occurrence of id in s. */
  ghost predicate IsLastPosition(s: seq<PermissionId>, id: PermissionId, p: int) {
    && 1 <= p <= |s|
    && s[p - 1] == id
    && forall j :: p <= j < |s| ==> s[j] != id
  }

  /** The 1-based position of the last occurrence of id in s. */
  function LastPosition(s: seq<PermissionId>, id: PermissionId): (p: nat)
    requires id in s
    ensures IsLastPosition(s, id, p)
    decreases |s|
  {
    if s[|s| - 1] == id then |s|
    else
      assert id in s[..|s| - 1] by {
        var k :| 0 <= k < |s| && s[k] == id;
        assert s[..|s| - 1][k] == id;
      }
      LastPosition(s[..|s| - 1], id)
  }

  /** A sequence has at most one last position for an id. */
  lemma LastPositionUnique(s: seq<PermissionId>, id: PermissionId, p: int, q: int)
    requires IsLastPosition(s, id, p) && IsLastPosition(s, id, q)
    ensures p == q
  {
  }

  /**
   The index invariant: exactly the tracked ids have a code, and each code is
   the 1-based position of that id's last occurrence.
   */
  ghost predicate IndexesLastPositions(s: seq<PermissionId>, codes: map<PermissionId, int>) {
    && (forall id :: id in codes <==> id in s)
    && (forall id :: id in codes ==> IsLastPosition(s, id, codes[id]))
  }

  /** The codes after one add per element of ids, in order, starting from the list s. */
  function CodesAfterAdds(s: seq<PermissionId>, codes: map<PermissionId, int>, ids: seq<PermissionId>): map<PermissionId, int>
    decreases |ids|
  {
    if ids == [] then codes
    else CodesAfterAdds(s + [ids[0]], codes[ids[0] := |s| + 1], ids[1..])
  }

  /** One add keeps the index invariant. */
  lemma AddKeepsIndex(s: seq<PermissionId>, codes: map<PermissionId, int>, id: PermissionId)
    requires IndexesLastPositions(s, codes)
    ensures IndexesLastPositions(s + [id], codes[id := |s| + 1])
  {
  }

  /** Adding a list of ids keeps the index invariant: every code is its id's last position. */
  lemma {:induction false} AddsKeepIndex(s: seq<PermissionId>, codes: map<PermissionId, int>, ids: seq<PermissionId>)
    requires IndexesLastPositions(s, codes)
    ensures IndexesLastPositions(s + ids, CodesAfterAdds(s, codes, ids))
    decreases |ids|
  {
    if ids == [] {
      assert s + ids == s;
    } else {
      AddKeepsIndex(s, codes, ids[0]);
      AddsKeepIndex(s + [ids[0]], codes[ids[0] := |s| + 1], ids[1..]);
      assert s + [ids[0]] + ids[1..] == s + ids;
    }
  }

  /** Adding a + b is adding a, then adding b: a batch add is the sequence of single adds. */
  lemma {:induction false} AddsCompose(s: seq<PermissionId>, codes: map<PermissionId, int>, a: seq<PermissionId>, b: seq<PermissionId>)
    ensures CodesAfterAdds(s, codes, a + b) == CodesAfterAdds(s + a, CodesAfterAdds(s, codes, a), b)
    decreases |a|
  {
    if a == [] {
      assert a + b == b;
      assert s + a == s;
    } else {
      assert (a + b)[0] == a[0];
      assert (a + b)[1..] == a[1..] + b;
      AddsCompose(s + [a[0]], codes[a[0] := |s| + 1], a[1..], b);
      assert s + [a[0]] + a[1..] == s + a;
    }
  }

  // ---------------------------------------------------------------------------
  // The resolve pass: which tracked ids go into the batched request
  // ---------------------------------------------------------------------------

  /** The tracked ids, in order and with repeats, whose checked status is DENIED. */
  function Needed(s: seq<PermissionId>, check: PermissionId -> int): seq<PermissionId>
    decreases |s|
  {
    if s == [] then []
    else
      var last := s[|s| - 1];
      Needed(s[..|s| - 1], check) + (if check(last) == PERMISSION_DENIED then [last] else [])
  }

  /** Checking one more tracked id adds it to the batch exactly when it is DENIED. */
  lemma NeededExtend(s: seq<PermissionId>, i: nat, check: PermissionId -> int)
    requires i < |s|
    ensures Needed(s[..i + 1], check) == Needed(s[..i], check) + if check(s[i]) == PERMISSION_DENIED then [s[i]] else []
  {
    assert s[..i + 1][..i] == s[..i];
  }

  /** When every tracked id checks as DENIED, the batch is the whole list, in order. */
  lemma {:induction false} NeededAllDenied(s: seq<PermissionId>, check: PermissionId -> int)
    requires forall i :: 0 <= i < |s| ==> check(s[i]) == PERMISSION_DENIED
    ensures Needed(s, check) == s
    decreases |s|
  {
    if s != [] {
      var s' := s[..|s| - 1];
      NeededAllDenied(s', check);
      assert s == s' + [s[|s| - 1]];
    }
  }

  /** Needed keeps the order of the list: it distributes over concatenation. */
  lemma {:induction false} NeededOfConcat(s: seq<PermissionId>, t: seq<PermissionId>, check: PermissionId -> int)
    ensures Needed(s + t, check) == Needed(s, check) + Needed(t, check)
    decreases |t|
  {
    if t == [] {
      assert s + t == s;
    } else {
      var t' := t[..|t| - 1];
      assert (s + t)[..|s + t| - 1] == s + t';
      assert (s + t)[|s + t| - 1] == t[|t| - 1];
      NeededOfConcat(s, t', check);
    }
  }

  /** Each id occurs in the batch as often as in the list when it is DENIED, and never otherwise. */
  lemma {:induction false} NeededCount(s: seq<PermissionId>, check: PermissionId -> int, id: PermissionId)
    ensures multiset(Needed(s, check))[id] == if check(id) == PERMISSION_DENIED then multiset(s)[id] else 0
    decreases |s|
  {
    if s != [] {
      var s' := s[..|s| - 1];
      assert s == s' + [s[|s| - 1]];
      NeededCount(s', check, id);
    }
  }

  /** An id is in the batch exactly when it is tracked and checks as DENIED. */
  lemma {:induction false} NeededMembers(s: seq<PermissionId>, check: PermissionId -> int, id: PermissionId)
    ensures id in Needed(s, check) <==> id in s && check(id) == PERMISSION_DENIED
  {
    NeededCount(s, check, id);
    assert id in Needed(s, check) <==> multiset(Needed(s, check))[id] > 0;
    assert id in s <==> multiset(s)[id] > 0;
  }

  /** No request is sent exactly when every tracked id checks as something other than DENIED. */
  lemma {:induction false} NoRequestIffNoneDenied(s: seq<PermissionId>, check: PermissionId -> int)
    ensures Needed(s, check) == [] <==> forall id :: id in s ==> check(id) != PERMISSION_DENIED
  {
    if Needed(s, check) != [] {
      NeededMembers(s, check, Needed(s, check)[0]);
    } else {
      forall id | id in s
        ensures check(id) != PERMISSION_DENIED
      {
        NeededMembers(s, check, id);
      }
    }
  }

  /** The statuses the resolve pass records: every tracked id mapped to its checked status. */
  function Checked(s: seq<PermissionId>, check: PermissionId -> int): map<PermissionId, int> {
    map id | id in s :: check(id)
  }

  /** Checking one more tracked id overwrites that id's status and no other. */
  lemma CheckedExtend(status: map<PermissionId, int>, s: seq<PermissionId>, i: nat, check: PermissionId -> int)
    requires i < |s|
    ensures status + Checked(s[..i + 1], check) == (status + Checked(s[..i], check))[s[i] := check(s[i])]
  {
  }

  // ---------------------------------------------------------------------------
  // The result callback: statuses the platform delivers
  // ---------------------------------------------------------------------------

  /** The statuses written by the callback, one per id in order, so a later write of an id wins. */
  function Delivered(ids: seq<PermissionId>, results: seq<int>): map<PermissionId, int>
    requires |ids| <= |results|
    decreases |ids|
  {
    if ids == [] then map[]
    else Delivered(ids[..|ids| - 1], results)[ids[|ids| - 1] := results[|ids| - 1]]
  }

  /** The callback writes exactly the ids it is given, and each gets the result at its last occurrence. */
  lemma {:induction false} DeliveredLastWins(ids: seq<PermissionId>, results: seq<int>, id: PermissionId)
    requires |ids| <= |results|
    ensures id in Delivered(ids, results) <==> id in ids
    ensures id in ids ==> Delivered(ids, results)[id] == results[LastPosition(ids, id) - 1]
    decreases |ids|
  {
    if ids != [] {
      var ids' := ids[..|ids| - 1];
      assert ids == ids' + [ids[|ids| - 1]];
      DeliveredLastWins(ids', results, id);
      if id in ids && ids[|ids| - 1] != id {
        var p := LastPosition(ids, id);
        var q := LastPosition(ids', id);
        assert IsLastPosition(ids, id, q);
        LastPositionUnique(ids, id, p, q);
      }
    }
  }

  // ---------------------------------------------------------------------------
  // The activity
  // ---------------------------------------------------------------------------

  class HandledPermissionsActivity {
    /** The tracked ids, in the order they were added, with repeats. */
    var permissions: seq<PermissionId>
    /** Each tracked id's 1-based position, the latest one for a repeated id. */
    var permissionCodes: map<PermissionId, int>
    /** The last known status of each id that has one. */
    var permissionStatus: map<PermissionId, int>
    /** Set once the permissions have been checked; adds are ignored afterwards. */
    var permissionsChecked: bool
    /** Every batched request sent to the platform, oldest first. */
    ghost var requests: seq<Request>

    ghost predicate Valid()
      reads this`permissions, this`permissionCodes
    {
      IndexesLastPositions(permissions, permissionCodes)
    }

    constructor ()
      ensures Valid()
      ensures permissions == [] && permissionCodes == map[] && permissionStatus == map[]
      ensures !permissionsChecked && requests == []
    {
      permissions := [];
      permissionCodes := map[];
      permissionStatus := map[];
      permissionsChecked := false;
      requests := [];
    }

    /** Appends id to the tracked ids and gives it the new length as its code; ignored once checked. */
    method AddPermission(id: PermissionId)
      requires Valid()
      modifies this`permissions, this`permissionCodes
      ensures Valid()
      ensures permissionsChecked ==> permissions == old(permissions) && permissionCodes == old(permissionCodes)
      ensures !permissionsChecked ==> permissions == old(permissions) + [id]
      ensures !permissionsChecked ==> permissionCodes == old(permissionCodes)[id := |permissions|]
    {
      if permissionsChecked {
        return;
      }
      AddKeepsIndex(permissions, permissionCodes, id);
      permissions := permissions + [id];
      permissionCodes := permissionCodes[id := |permissions|];
    }

    /** Appends every id in order, as one AddPermission per element; ignored as a whole once checked. */
    method AddPermissions(ids: seq<PermissionId>)
      requires Valid()
      modifies this`permissions, this`permissionCodes
      ensures Valid()
      ensures permissionsChecked ==> permissions == old(permissions) && permissionCodes == old(permissionCodes)
      ensures !permissionsChecked ==> permissions == old(permissions) + ids
      ensures !permissionsChecked ==> permissionCodes == CodesAfterAdds(old(permissions), old(permissionCodes), ids)
    {
      if permissionsChecked {
        return;
      }
      AddsKeepIndex(permissions, permissionCodes, ids);
      var i := 0;
      while i < |ids|
        invariant 0 <= i <= |ids|
        invariant permissions == old(permissions) + ids[..i]
        invariant CodesAfterAdds(permissions, permissionCodes, ids[i..])
               == CodesAfterAdds(old(permissions), old(permissionCodes), ids)
      {
        assert ids[i..][0] == ids[i] && ids[i..][1..] == ids[i + 1..];
        permissions := permissions + [ids[i]];
        permissionCodes := permissionCodes[ids[i] := |permissions|];
        assert ids[..i + 1] == ids[..i] + [ids[i]];
        i := i + 1;
      }
      assert ids[..i] == ids;
      assert ids[i..] == [];
    }

    /** The last known status of id; DENIED when none is recorded. */
    function GetPermissionStatus(id: PermissionId): (r: int)
      reads this`permissionStatus
      ensures id !in permissionStatus ==> r == PERMISSION_DENIED
      ensures r != PERMISSION_DENIED ==> id in permissionStatus && permissionStatus[id] == r
    {
      if id !in permissionStatus then PERMISSION_DENIED else permissionStatus[id]
    }

    /**
     Records the checked status of every tracked id, sends one request with the
     DENIED ones in order when there are any, and closes the list of ids.
     */
    method CheckPermissions(check: PermissionId -> int)
      modifies this`permissionStatus, this`permissionsChecked, this`requests
      ensures permissionsChecked
      ensures permissionStatus == old(permissionStatus) + Checked(permissions, check)
      ensures forall id :: GetPermissionStatus(id) == if id in permissions then check(id) else old(GetPermissionStatus(id))
      ensures Needed(permissions, check) == [] ==> requests == old(requests)
      ensures Needed(permissions, check) != [] ==>
                requests == old(requests) + [Request(Needed(permissions, check), PERMISSION_REQUEST_CODE)]
    {
      var neededPermissions: seq<PermissionId> := [];
      var i := 0;
      while i < |permissions|
        invariant 0 <= i <= |permissions|
        invariant permissionStatus == old(permissionStatus) + Checked(permissions[..i], check)
        invariant neededPermissions == Needed(permissions[..i], check)
        invariant requests == old(requests)
      {
        var permission := permissions[i];
        NeededExtend(permissions, i, check);
        CheckedExtend(old(permissionStatus), permissions, i, check);
        permissionStatus := permissionStatus[permission := check(permission)];
        if permissionStatus[permission] == PERMISSION_DENIED {
          neededPermissions := neededPermissions + [permission];
        }
        i := i + 1;
      }
      assert permissions[..i] == permissions;
      forall id
        ensures GetPermissionStatus(id) == if id in permissions then check(id) else old(GetPermissionStatus(id))
      {
        assert id in Checked(permissions, check) <==> id in permissions;
      }
      if |neededPermissions| > 0 {
        requests := requests + [Request(neededPermissions, PERMISSION_REQUEST_CODE)];
      }
      permissionsChecked := true;
    }

    /**
     The platform's answer to a request: with the activity's request code, each
     id's status becomes its result, the last one for a repeated id; any other
     request code changes nothing.
     */
    method OnRequestPermissionsResult(requestCode: int, permissionIds: seq<PermissionId>, grantResults: seq<int>)
      requires requestCode == PERMISSION_REQUEST_CODE ==> |permissionIds| <= |grantResults|
      modifies this`permissionStatus
      ensures requestCode != PERMISSION_REQUEST_CODE ==> permissionStatus == old(permissionStatus)
      ensures requestCode == PERMISSION_REQUEST_CODE ==>
                permissionStatus == old(permissionStatus) + Delivered(permissionIds, grantResults)
      ensures requestCode == PERMISSION_REQUEST_CODE ==>
                forall id, p :: IsLastPosition(permissionIds, id, p) ==> GetPermissionStatus(id) == grantResults[p - 1]
      ensures forall id :: id !in permissionIds ==> GetPermissionStatus(id) == old(GetPermissionStatus(id))
    {
      if requestCode == PERMISSION_REQUEST_CODE {
        var i := 0;
        while i < |permissionIds|
          invariant 0 <= i <= |permissionIds|
          invariant permissionStatus == old(permissionStatus) + Delivered(permissionIds[..i], grantResults)
        {
          assert permissionIds[..i + 1][..i] == permissionIds[..i];
          permissionStatus := permissionStatus[permissionIds[i] := grantResults[i]];
          i := i + 1;
        }
        assert permissionIds[..i] == permissionIds;
        forall id, p | IsLastPosition(permissionIds, id, p)
          ensures GetPermissionStatus(id) == grantResults[p - 1]
        {
          DeliveredLastWins(permissionIds, grantResults, id);
          LastPositionUnique(permissionIds, id, p, LastPosition(permissionIds, id));
        }
        forall id | id !in permissionIds
          ensures GetPermissionStatus(id) == old(GetPermissionStatus(id))
        {
          DeliveredLastWins(permissionIds, grantResults, id);
        }
      }
    }
  }

  /**
   The sample app's start-up, for any four ids: coarse and fine
   location added as a batch, then bluetooth, then the check. With every check
   DENIED the three go out in one request in the order they were added, and a
   later add is ignored.
   */
  method StartUpScenario(coarse: PermissionId, fine: PermissionId, bluetooth: PermissionId, camera: PermissionId)
  {
    var activity := new HandledPermissionsActivity();
    activity.AddPermissions([coarse, fine]);
    activity.AddPermission(bluetooth);
    assert activity.permissions == [coarse, fine, bluetooth];
    assert activity.GetPermissionStatus(bluetooth) == PERMISSION_DENIED;

    var deniedAll := (id: PermissionId) => PERMISSION_DENIED;
    var tracked := activity.permissions;
    NeededAllDenied(tracked, deniedAll);
    assert activity.requests == [];
    activity.CheckPermissions(deniedAll);
    assert activity.permissions == tracked;
    assert activity.requests == [Request([coarse, fine, bluetooth], PERMISSION_REQUEST_CODE)];

    activity.AddPermission(camera);
    assert activity.permissions == [coarse, fine, bluetooth];
  }

  /**
   A check that finds the first of three tracked ids granted and the other two
   denied requests exactly the other two, in order, and records all three.
   */
  method PartlyGrantedScenario(activity: HandledPermissionsActivity, a: PermissionId, b: PermissionId, c: PermissionId)
    requires a != b && a != c
    requires activity.permissions == [a, b, c]
    modifies activity
  {
    var grantedA := (id: PermissionId) => if id == a then PERMISSION_GRANTED else PERMISSION_DENIED;
    var tracked := activity.permissions;
    NeededOfConcat([a], [b, c], grantedA);
    NeededAllDenied([b, c], grantedA);
    assert [a] + [b, c] == tracked;
    ghost var before := activity.requests;
    activity.CheckPermissions(grantedA);
    assert activity.requests == before + [Request([b, c], PERMISSION_REQUEST_CODE)];
    assert activity.GetPermissionStatus(a) == PERMISSION_GRANTED;
    assert activity.GetPermissionStatus(b) == PERMISSION_DENIED;
    assert activity.GetPermissionStatus(c) == PERMISSION_DENIED;
  }

  /**
   The platform's answer to that request grants coarse location and bluetooth
   and denies fine location; an id outside the answer keeps its status, here
   the fail-closed DENIED.
   */
  method ResultScenario(activity: HandledPermissionsActivity,
                        coarse: PermissionId, fine: PermissionId, bluetooth: PermissionId, camera: PermissionId)
    requires coarse != fine && coarse != bluetooth && fine != bluetooth
    requires camera != coarse && camera != fine && camera != bluetooth
    requires camera !in activity.permissionStatus
    modifies activity
  {
    var answered := [coarse, fine, bluetooth];
    assert IsLastPosition(answered, coarse, 1) && IsLastPosition(answered, fine, 2) && IsLastPosition(answered, bluetooth, 3);
    activity.OnRequestPermissionsResult(PERMISSION_REQUEST_CODE, answered,
                                        [PERMISSION_GRANTED, PERMISSION_DENIED, PERMISSION_GRANTED]);
    assert activity.GetPermissionStatus(coarse) == PERMISSION_GRANTED;
    assert activity.GetPermissionStatus(fine) == PERMISSION_DENIED;
    assert activity.GetPermissionStatus(bluetooth) == PERMISSION_GRANTED;
    assert activity.GetPermissionStatus(camera) == PERMISSION_DENIED;
  }
}
