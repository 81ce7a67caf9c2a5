/** `TaskGroup` of `src-tauri/src/commands/task/task_group.rs`: a named list
    of task ids with creation, update and deletion stamps, changed in place
    by its `&mut self` methods. `Local::now()` is the `now` parameter and
    `Uuid::new_v4()` the `freshId` one. */
module TaskGroupRecord {
  import opened Basics

  type Uuid = string

  /** An instant, standing for `DateTime<Local>`. */
  type Instant = int

  /** The ids left after `retain(|&id| id != taskId)`. */
  function Without(ids: seq<Uuid>, taskId: Uuid): (r: seq<Uuid>)
    ensures taskId !in r
    ensures forall x :: x != taskId ==> (x in r <==> x in ids)
    ensures IsSubsequence(r, ids)
  {
    FilterIsSubsequence(y => y != taskId, ids);
    Filter(y => y != taskId, ids)
  }

  /** Every occurrence of the id goes, and nothing else. */
  lemma {:induction false} WithoutCount(ids: seq<Uuid>, taskId: Uuid)
    ensures multiset(Without(ids, taskId)) == multiset(ids)[taskId := 0]
  {
    if ids != [] {
      var p := (y: Uuid) => y != taskId;
      var head, tail := ids[0], ids[1..];
      WithoutCount(tail, taskId);
      var kept: seq<Uuid> := if head != taskId then [head] else [];
      assert Without(ids, taskId) == kept + Without(tail, taskId) by {
        assert Filter(p, ids) == (if p(head) then [head] else []) + Filter(p, tail);
      }
      assert multiset(ids) == multiset{head} + multiset(tail) by {
        assert ids == [head] + tail;
      }
    }
  }

  /** Removing twice is removing once. */
  lemma RemoveIdempotent(ids: seq<Uuid>, taskId: Uuid)
    ensures Without(Without(ids, taskId), taskId) == Without(ids, taskId)
  {
    FilterIdempotent(y => y != taskId, ids);
  }

  /** Removing an absent id changes nothing. */
  lemma RemoveAbsent(ids: seq<Uuid>, taskId: Uuid)
    requires taskId !in ids
    ensures Without(ids, taskId) == ids
  {
    FilterAll(y => y != taskId, ids);
  }

  /** Adding an absent id and removing it again restores the list. */
  lemma AddThenRemove(ids: seq<Uuid>, taskId: Uuid)
    requires taskId !in ids
    ensures Without(ids + [taskId], taskId) == ids
  {
    var p := (y: Uuid) => y != taskId;
    FilterConcat(p, ids, [taskId]);
    FilterAll(p, ids);
    assert [taskId][1..] == [];
  }

  class TaskGroup {
    var id: Uuid
    var name: string
    var tasks: seq<Uuid>
    var createdAt: Instant
    var updatedAt: Option<Instant>
    var deletedAt: Option<Instant>

    /** `TaskGroup::new`. */
    constructor (freshId: Uuid, now: Instant)
      ensures id == freshId && name == "" && tasks == []
      ensures createdAt == now && updatedAt == None && deletedAt == None
    {
      id := freshId;
      name := "";
      tasks := [];
      createdAt := now;
      updatedAt := None;
      deletedAt := None;
    }

    /** `add_task`: the id goes at the end. */
    method AddTask(taskId: Uuid)
      modifies this
      ensures tasks == old(tasks) + [taskId]
      ensures id == old(id) && name == old(name) && createdAt == old(createdAt)
      ensures updatedAt == old(updatedAt) && deletedAt == old(deletedAt)
    {
      tasks := tasks + [taskId];
    }

    /** `remove_task`: `retain` walks the list and keeps every other id. */
    method RemoveTask(taskId: Uuid)
      modifies this
      ensures tasks == Without(old(tasks), taskId)
      ensures id == old(id) && name == old(name) && createdAt == old(createdAt)
      ensures updatedAt == old(updatedAt) && deletedAt == old(deletedAt)
    {
      var p := (y: Uuid) => y != taskId;
      var ids := tasks;
      var kept: seq<Uuid> := [];
      var i := 0;
      while i < |ids|
        invariant 0 <= i <= |ids|
        invariant kept == Filter(p, ids[..i])
        modifies {}
      {
        FilterConcat(p, ids[..i], [ids[i]]);
        assert ids[..i + 1] == ids[..i] + [ids[i]];
        assert [ids[i]][1..] == [];
        if ids[i] != taskId {
          kept := kept + [ids[i]];
        }
        i := i + 1;
      }
      assert ids[..i] == ids;
      tasks := kept;
    }

    /** `set_created_at`. */
    method SetCreatedAt(now: Instant)
      modifies this
      ensures createdAt == now
      ensures id == old(id) && name == old(name) && tasks == old(tasks)
      ensures updatedAt == old(updatedAt) && deletedAt == old(deletedAt)
    {
      createdAt := now;
    }

    /** `update_updated_at`. */
    method UpdateUpdatedAt(now: Instant)
      modifies this
      ensures updatedAt == Some(now)
      ensures id == old(id) && name == old(name) && tasks == old(tasks)
      ensures createdAt == old(createdAt) && deletedAt == old(deletedAt)
    {
      updatedAt := Some(now);
    }

    /** `set_deleted`. */
    method SetDeleted(now: Instant)
      modifies this
      ensures deletedAt == Some(now)
      ensures id == old(id) && name == old(name) && tasks == old(tasks)
      ensures createdAt == old(createdAt) && updatedAt == old(updatedAt)
    {
      deletedAt := Some(now);
    }
  }

  /** A fresh group that gets an id added and removed again is empty. */
  method AddRemoveScenario(freshId: Uuid, now: Instant, taskId: Uuid) returns (tasks: seq<Uuid>)
    ensures tasks == []
  {
    var g := new TaskGroup(freshId, now);
    g.AddTask(taskId);
    g.RemoveTask(taskId);
    AddThenRemove([], taskId);
    tasks := g.tasks;
  }
}
