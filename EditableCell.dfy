/** One editable value cell: a draft the user types into, committed upstream on blur when it
    differs from the value the cell was rendered with, and rolled back if the commit throws. */
module EditableCell {
  import opened Wrappers
  import opened Models
  import UseLocalizations

  /** The keys the cell reacts to; any other key is ignored. */
  datatype Key = Enter | Escape | Other(name: string)

  /** What the update call does when it is awaited: resolve, or throw (which triggers rollback). */
  datatype CommitOutcome = Resolves | Throws

  /** What awaiting `updateLocalizations(...)` gives the blur handler as written: the hook hands
      out `mutation.mutate`, which returns nothing and reports a failed update only to its
      `onError` callback, so the await resolves whatever the server answers. */
  function AwaitMutate(reply: UseLocalizations.Reply<UpdateAck>): (o: CommitOutcome)
    ensures o != Throws
  {
    Resolves
  }

  /** The evident intent, as with `mutation.mutateAsync`: the await throws exactly when the
      update fails. */
  function AwaitMutateAsync(reply: UseLocalizations.Reply<UpdateAck>): (o: CommitOutcome)
    ensures o == Throws <==> UseLocalizations.UpdateLocalizations(reply).Failure?
  {
    if UseLocalizations.UpdateLocalizations(reply).Success? then Resolves else Throws
  }

  /** Finding: a rejected update (here a 500 with a detail) never reaches the rollback as
      written, while the intended await would throw. */
  lemma RejectedUpdateNotRolledBack(detail: string)
    ensures var reply := UseLocalizations.NotOk(500, UseLocalizations.Json(Some(detail)));
      && UseLocalizations.UpdateLocalizations(reply).Failure?
      && AwaitMutate(reply) == Resolves
      && AwaitMutateAsync(reply) == Throws
  {
  }

  /** The update a blur sends: `{localizations: {[localizationKey]: {value, updated_by}}}`. */
  function CommitPayload(localizationKey: string, draft: string, selectedProject: string): UpdatePayload {
    UpdatePayload(map[localizationKey := TranslationUpdate(draft, selectedProject)])
  }

  /** `p` updates only `key`, to a value other than `initialValue`, on behalf of `project`. */
  predicate IsEdit(p: UpdatePayload, key: string, initialValue: string, project: string) {
    && p.localizations.Keys == {key}
    && p.localizations[key].value != initialValue
    && p.localizations[key].updatedBy == project
  }

  /** The payload a blur builds is an edit exactly when the draft differs from the initial value;
      its one entry carries the draft unchanged. */
  lemma CommitPayloadIsEdit(key: string, draft: string, initialValue: string, project: string)
    ensures IsEdit(CommitPayload(key, draft, project), key, initialValue, project) <==> draft != initialValue
    ensures CommitPayload(key, draft, project).localizations[key] == TranslationUpdate(draft, project)
  {
  }

  class Cell {
    /** Props and store selection the cell was rendered with. */
    const initialValue: string
    const localizationKey: string
    const selectedProject: string

    /** `value`: the draft. */
    var value: string
    var isEditing: bool
    /** `lastCaretPosition.current`: the caret offset seen by the last input, if any. */
    var lastCaretPosition: Option<nat>
    /** `cellRef.current.textContent`: the text the element displays. */
    var text: string
    /** Where the selection's caret is, once placed by the restore effect. */
    var caret: Option<nat>
    /** Every update request this cell has sent, oldest first. */
    ghost var requests: seq<UpdatePayload>

    /** The cell shows its draft, and every request it sent was a real edit of its own key,
        attributed to the selected project. */
    ghost predicate Valid()
      reads this
    {
      && text == value
      && forall p :: p in requests ==> IsEdit(p, localizationKey, initialValue, selectedProject)
    }

    /** `useState(initialValue)`, `useState(false)`, `useRef(null)`. */
    constructor (initialValue: string, localizationKey: string, selectedProject: string)
      ensures Valid()
      ensures this.initialValue == initialValue && this.localizationKey == localizationKey
      ensures this.selectedProject == selectedProject
      ensures value == initialValue && text == initialValue && !isEditing
      ensures lastCaretPosition == None && caret == None && requests == []
    {
      this.initialValue := initialValue;
      this.localizationKey := localizationKey;
      this.selectedProject := selectedProject;
      value := initialValue;
      text := initialValue;
      isEditing := false;
      lastCaretPosition := None;
      caret := None;
      requests := [];
    }

    /** `onFocus`: enter editing; the draft stays as it is. */
    method Focus()
      requires Valid()
      modifies this`isEditing
      ensures Valid() && isEditing
    {
      isEditing := true;
    }

    /** `onInput`: the draft becomes the element's text (`""` if it has none), and the caret
        offset is recorded when the selection has a range. */
    method Input(textContent: Option<string>, rangeStart: Option<nat>)
      requires Valid()
      modifies this`value, this`text, this`lastCaretPosition
      ensures Valid()
      ensures value == textContent.GetOr("")
      ensures lastCaretPosition == if rangeStart.Some? then rangeStart else old(lastCaretPosition)
    {
      if rangeStart.Some? {
        lastCaretPosition := rangeStart;
      }
      value := textContent.GetOr("");
      text := value;
    }

    /** `onBlur`: leave editing; an unchanged draft sends nothing, a changed one sends exactly
        one update and, if that call throws, the draft and the text fall back to `initialValue`. */
    method Blur(outcome: CommitOutcome)
      requires Valid()
      modifies this`isEditing, this`value, this`text, this`requests
      ensures Valid() && !isEditing
      ensures old(value) == initialValue ==> requests == old(requests) && value == old(value)
      ensures old(value) != initialValue ==>
        requests == old(requests) + [CommitPayload(localizationKey, old(value), selectedProject)]
      ensures old(value) != initialValue && outcome == Throws ==> value == initialValue && text == initialValue
      ensures outcome == Resolves ==> value == old(value)
    {
      isEditing := false;
      if value != initialValue {
        requests := requests + [CommitPayload(localizationKey, value, selectedProject)];
        if outcome == Throws {
          value := initialValue;
          text := initialValue;
        }
      }
    }

    /** A blur whose update ends with `reply`, awaited as intended: a failed update puts the
        draft and the text back to `initialValue`, a successful one keeps the draft. */
    method Commit(reply: UseLocalizations.Reply<UpdateAck>)
      requires Valid()
      modifies this`isEditing, this`value, this`text, this`requests
      ensures Valid() && !isEditing
      ensures old(value) != initialValue ==>
        requests == old(requests) + [CommitPayload(localizationKey, old(value), selectedProject)]
      ensures old(value) == initialValue ==> requests == old(requests) && value == old(value)
      ensures old(value) != initialValue && UseLocalizations.UpdateLocalizations(reply).Failure? ==>
        value == initialValue && text == initialValue
      ensures UseLocalizations.UpdateLocalizations(reply).Success? ==> value == old(value)
    {
      Blur(AwaitMutateAsync(reply));
    }

    /** `onKeyDown`: Enter blurs; Escape puts `initialValue` back and then blurs, so that blur
        has nothing to send; other keys change nothing. */
    method KeyDown(k: Key, outcome: CommitOutcome)
      requires Valid()
      modifies this`isEditing, this`value, this`text, this`requests
      ensures Valid()
      ensures k == Escape ==> value == initialValue && text == initialValue && !isEditing
                              && requests == old(requests)
      ensures k == Enter ==> !isEditing
      ensures k == Enter && old(value) != initialValue ==>
        requests == old(requests) + [CommitPayload(localizationKey, old(value), selectedProject)]
      ensures k == Enter && old(value) == initialValue ==> requests == old(requests)
      ensures k == Enter && old(value) != initialValue && outcome == Throws ==>
        value == initialValue && text == initialValue
      ensures k == Enter && (old(value) == initialValue || outcome == Resolves) ==> value == old(value)
      ensures k.Other? ==> value == old(value) && isEditing == old(isEditing) && requests == old(requests)
    {
      if k == Enter {
        Blur(outcome);
      }
      if k == Escape {
        value := initialValue;
        text := initialValue;
        Blur(outcome);
      }
    }

    /** The effect run after a render: while editing with a saved offset, the caret goes back to
        that offset, unless placing it there throws (`setStartThrows`), in which case it goes to
        the end of the text. */
    method RestoreCaret(setStartThrows: bool)
      requires Valid()
      modifies this`caret
      ensures Valid()
      ensures isEditing && lastCaretPosition.Some? && !setStartThrows ==> caret == lastCaretPosition
      ensures isEditing && lastCaretPosition.Some? && setStartThrows ==> caret == Some(|text|)
      ensures !(isEditing && lastCaretPosition.Some?) ==> caret == old(caret)
    {
      if isEditing && lastCaretPosition.Some? {
        if !setStartThrows {
          caret := lastCaretPosition;
        } else {
          caret := Some(|text|);
        }
      }
    }
  }
}
