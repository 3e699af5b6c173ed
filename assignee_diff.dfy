/** The task dialog's submit handler in edit mode (TaskModal.tsx): it turns the edited
    assignee list into the `add_assignees` / `remove_assignees` pair that editTask
    consumes. */
module AssigneeDiff {
  import opened Domain
  import opened Seqs
  import opened Tables
  import opened TaskRules

  /** `new Set(xs)` read back in insertion order: the first copy of each id. */
  function Dedup(xs: seq<UserId>): seq<UserId>
  {
    AppendMissing([], xs)
  }

  /** `assignees.filter((id) => !existingAssignees.has(id))` */
  function Additions(existing: seq<UserId>, edited: seq<UserId>): seq<UserId>
  {
    Without(edited, Elems(existing))
  }

  /** `new Array(...existingAssignees).filter((id) => !updatedAssignees.has(id))` */
  function Removed(existing: seq<UserId>, edited: seq<UserId>): seq<UserId>
  {
    Without(Dedup(existing), Elems(edited))
  }

  /** The pair sent to the server: both lists when the assignee field was touched
      (even when it was emptied), neither otherwise. */
  function EditAssigneeArgs(existing: seq<UserId>, field: Option<seq<UserId>>): (r: (Option<seq<UserId>>, Option<seq<UserId>>))
    ensures field.None? <==> r.0.None? && r.1.None?
    ensures field.Some? ==> r.0.Some? && r.1.Some?
  {
    match field
    case None => (None, None)
    case Some(edited) => (Some(Additions(existing, edited)), Some(Removed(existing, edited)))
  }

  /** The additions are the new ids and the removals the dropped ones; they are
      disjoint, the removals hold no id twice, and every removal is an existing
      assignee, so editTask's usersAreAssigned check accepts them. */
  lemma DiffSpec(existing: seq<UserId>, edited: seq<UserId>)
    ensures Elems(Additions(existing, edited)) == Elems(edited) - Elems(existing)
    ensures Elems(Removed(existing, edited)) == Elems(existing) - Elems(edited)
    ensures Elems(Additions(existing, edited)) !! Elems(Removed(existing, edited))
    ensures NoDup(Removed(existing, edited))
    ensures forall x :: x in Removed(existing, edited) ==> x in existing
  {
    var adds, dedup, rems := Additions(existing, edited), Dedup(existing), Removed(existing, edited);
    AppendMissingElems([], existing);
    assert Elems(dedup) == Elems(existing) by {
      assert Elems<UserId>([]) == {};
    }
    assert Elems(adds) == Elems(edited) - Elems(existing) by {
      forall x ensures x in Elems(adds) <==> x in edited && x !in Elems(existing) {
        assert x in adds <==> x in edited && x !in Elems(existing);
      }
    }
    assert Elems(rems) == Elems(existing) - Elems(edited) by {
      forall x ensures x in Elems(rems) <==> x in Elems(existing) && x !in Elems(edited) {
        assert x in rems <==> x in dedup && x !in Elems(edited);
        assert x in dedup <==> x in Elems(dedup);
      }
    }
    forall x | x in rems ensures x in existing {
      assert x in Elems(rems);
    }
    AppendMissingNoDup([], existing);
    WithoutKeepsNoDup(dedup, Elems(edited));
  }

  /** The server's getNewAssignees applied to the pair yields the edited list, as a set. */
  lemma DiffRoundTrip(existing: seq<UserId>, edited: seq<UserId>)
    ensures Elems(NewAssignees(existing, Additions(existing, edited), Removed(existing, edited))) == Elems(edited)
  {
    DiffSpec(existing, edited);
    NewAssigneesElems(existing, Additions(existing, edited), Removed(existing, edited));
  }

  /** When the dialog starts from the server's assignee list, the edit leaves the task
      assigned to exactly the edited users, or to the editor when the list was emptied. */
  lemma DiffThenEdit(rows: seq<Assignment>, next: nat, t: TaskId, editor: UserId, edited: seq<UserId>)
    ensures var existing := AssigneesOf(rows, t);
      AssigneeSet(EditedRows(rows, next, t, editor, Additions(existing, edited), Removed(existing, edited)), t)
      == if edited == [] then {editor} else Elems(edited)
  {
    var existing := AssigneesOf(rows, t);
    var add, rem := Additions(existing, edited), Removed(existing, edited);
    DiffSpec(existing, edited);
    DiffRoundTrip(existing, edited);
    EditedAssignees(rows, next, t, editor, add, rem, t);
    EmptyIffNoElems(edited);
    EmptyIffNoElems(NewAssignees(existing, add, rem));
  }

  /** Re-submitting the same set of assignees sends two empty lists, which editTask
      treats as no assignee change. */
  lemma UnchangedFieldIsNoChange(existing: seq<UserId>, edited: seq<UserId>)
    requires Elems(edited) == Elems(existing)
    ensures var (add, rem) := EditAssigneeArgs(existing, Some(edited));
      NoAssigneeChange(add, rem)
  {
    DiffSpec(existing, edited);
    EmptyIffNoElems(Additions(existing, edited));
    EmptyIffNoElems(Removed(existing, edited));
  }
}
