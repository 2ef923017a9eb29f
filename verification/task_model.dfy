/**
  The task entity and the field-level partial-update rule that the controller
  applies when a client sends a replacement task.

  A C# `string` that may be null is an `Option<string>` here (`None` is null),
  and a `bool?` is an `Option<bool>` (`None` is "no value").
 */
module TaskModel {

  datatype Option<+T> = None | Some(value: T)

  /** One stored task; the four fields mirror the entity's JSON shape. */
  datatype TaskItem = TaskItem(
    id: int,
    title: Option<string>,
    description: Option<string>,
    isCompleted: Option<bool>
  )

  /** `string.IsNullOrEmpty`: null, or the empty string. */
  predicate IsNullOrEmpty(s: Option<string>) {
    s == None || s == Some("")
  }

  /** A text field of the patch replaces the stored one only when it carries characters. */
  function MergeText(existing: Option<string>, incoming: Option<string>): Option<string> {
    if IsNullOrEmpty(incoming) then existing else incoming
  }

  /** A completion flag of the patch replaces the stored one whenever it has a value. */
  function MergeFlag(existing: Option<bool>, incoming: Option<bool>): Option<bool> {
    if incoming.Some? then incoming else existing
  }

  /** The partial update of `existing` by `patch`. */
  function Merge(existing: TaskItem, patch: TaskItem): (r: TaskItem)
    // the key of the stored task is never taken from the patch
    ensures r.id == existing.id
    // a title or description is overwritten exactly when the incoming one is non-null and non-empty
    ensures r.title == (if IsNullOrEmpty(patch.title) then existing.title else patch.title)
    ensures r.description == (if IsNullOrEmpty(patch.description) then existing.description else patch.description)
    // the flag is overwritten whenever the incoming flag has a value, `false` included
    ensures r.isCompleted == (if patch.isCompleted.Some? then patch.isCompleted else existing.isCompleted)
  {
    existing.(
      title := MergeText(existing.title, patch.title),
      description := MergeText(existing.description, patch.description),
      isCompleted := MergeFlag(existing.isCompleted, patch.isCompleted)
    )
  }

  /** True when no field of `patch` passes its presence test. */
  predicate IsEmptyPatch(patch: TaskItem) {
    IsNullOrEmpty(patch.title) && IsNullOrEmpty(patch.description) && patch.isCompleted == None
  }

  /** Applying the same patch a second time changes nothing further. */
  lemma MergeIdempotent(existing: TaskItem, patch: TaskItem)
    ensures Merge(Merge(existing, patch), patch) == Merge(existing, patch)
  {
  }

  /** A patch changes the task if and only if some field passes its presence test
      and differs from the stored value. */
  lemma MergeChangesIff(existing: TaskItem, patch: TaskItem)
    ensures Merge(existing, patch) == existing <==>
      && (IsNullOrEmpty(patch.title) || patch.title == existing.title)
      && (IsNullOrEmpty(patch.description) || patch.description == existing.description)
      && (patch.isCompleted == None || patch.isCompleted == existing.isCompleted)
  {
  }

  /** A patch carrying nothing present leaves the task as it was. */
  lemma MergeEmptyPatch(existing: TaskItem, patch: TaskItem)
    requires IsEmptyPatch(patch)
    ensures Merge(existing, patch) == existing
  {
  }

  /** A patch whose every field is present replaces every field but the key. */
  lemma MergeFullPatch(existing: TaskItem, patch: TaskItem)
    requires !IsNullOrEmpty(patch.title) && !IsNullOrEmpty(patch.description) && patch.isCompleted.Some?
    ensures Merge(existing, patch) == patch.(id := existing.id)
  {
  }

  /** The worked example: title "" is ignored, description "C" overwrites,
      a null flag keeps `false`. */
  lemma MergeExample()
    ensures Merge(TaskItem(1, Some("A"), Some("B"), Some(false)),
                  TaskItem(1, Some(""), Some("C"), None))
         == TaskItem(1, Some("A"), Some("C"), Some(false))
  {
  }
}
