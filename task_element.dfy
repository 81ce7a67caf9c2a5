/** `TaskElement` of `src-tauri/src/commands/task/task_element.rs`: the
    descriptive part of a task, rebuilt by each update. */
module TaskElementRecord {
  import opened Basics

  type Uuid = string

  datatype TaskElement = TaskElement(description: string, details: Option<string>)

  const DefaultDescription: string := "No description."

  function Default(): (e: TaskElement)
    ensures e.description == DefaultDescription && e.details == None
  {
    TaskElement(DefaultDescription, None)
  }

  function UpdateDescription(e: TaskElement, description: string): (r: TaskElement)
    ensures r.description == description && r.details == e.details
  {
    TaskElement(description, e.details)
  }

  /** `update_group` rebuilds the element from its own fields: the group is
      dropped. */
  function UpdateGroup(e: TaskElement, group: Uuid): (r: TaskElement)
    ensures r == e
  {
    TaskElement(e.description, e.details)
  }

  function UpdateDetails(e: TaskElement, details: string): (r: TaskElement)
    ensures r.details == Some(details) && r.description == e.description
  {
    TaskElement(e.description, Some(details))
  }

  /** The description and the details are set independently. */
  lemma UpdatesCommute(e: TaskElement, description: string, details: string)
    ensures UpdateDetails(UpdateDescription(e, description), details)
            == UpdateDescription(UpdateDetails(e, details), description)
  {
  }

  /** Whatever group is passed, no field of the element changes, so two
      different groups give the same element. */
  lemma GroupIgnored(e: TaskElement, g1: Uuid, g2: Uuid)
    ensures UpdateGroup(e, g1) == UpdateGroup(e, g2) == e
    ensures UpdateDescription(UpdateGroup(e, g1), e.description) == e
  {
  }
}
