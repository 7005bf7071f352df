/**
 * The saved-queries dialog (src/components/SavedQueriesModal.tsx): a list of named queries,
 * newest first, the name being typed, and whether the name field is open.
 */
module SavedQueries {
  import opened Wrappers
  import opened JsStrings
  import opened JsArrays

  datatype SavedQuery = SavedQuery(id: string, name: string, query: string, timestamp: nat)

  /** The callbacks the dialog invokes, in order. */
  datatype Effect = LoadQuery(query: string) | Close

  /** `savedQueries.filter(q => q.id !== id)` */
  function WithoutQuery(list: seq<SavedQuery>, id: string): (r: seq<SavedQuery>)
    ensures r == Filter((q: SavedQuery) => q.id != id, list)
    ensures forall q :: q in r <==> q in list && q.id != id
    ensures |r| <= |list|
  {
    if list == [] then []
    else if list[0].id == id then WithoutQuery(list[1..], id)
    else [list[0]] + WithoutQuery(list[1..], id)
  }

  /** Deleting an id no entry has keeps the list as it is, in order. */
  lemma {:induction false} WithoutAbsentQuery(list: seq<SavedQuery>, id: string)
    requires forall q | q in list :: q.id != id
    ensures WithoutQuery(list, id) == list
  {
    if list != [] {
      WithoutAbsentQuery(list[1..], id);
    }
  }

  class SavedQueriesModal {
    var savedQueries: seq<SavedQuery>
    var newQueryName: string
    var isSaving: bool

    constructor ()
      ensures savedQueries == [] && newQueryName == "" && !isSaving
    {
      savedQueries, newQueryName, isSaving := [], "", false;
    }

    /**
     * `handleSave`; `alert` is the message shown when the save is refused. The id and the
     * timestamp come from two `Date.now()` calls: `idStamp` and `now`.
     */
    method Save(currentQuery: string, idStamp: nat, now: nat) returns (alert: Option<string>)
      modifies this
      ensures IsBlank(old(newQueryName)) ==> alert == Some("Please enter a name for the query.")
      ensures !IsBlank(old(newQueryName)) && IsBlank(currentQuery) ==> alert == Some("The editor is empty. Nothing to save.")
      ensures alert.Some? ==>
        savedQueries == old(savedQueries) && newQueryName == old(newQueryName) && isSaving == old(isSaving)
      ensures !IsBlank(old(newQueryName)) && !IsBlank(currentQuery) ==>
        && alert.None?
        && savedQueries == [SavedQuery(NatToString(idStamp), old(newQueryName), currentQuery, now)] + old(savedQueries)
        && newQueryName == "" && !isSaving
    {
      if Trim(newQueryName) == "" {
        return Some("Please enter a name for the query.");
      }
      if Trim(currentQuery) == "" {
        return Some("The editor is empty. Nothing to save.");
      }
      var entry := SavedQuery(NatToString(idStamp), newQueryName, currentQuery, now);
      savedQueries := [entry] + savedQueries;
      newQueryName := "";
      isSaving := false;
      alert := None;
    }

    /** `handleDelete`; `confirmed` is the answer to the confirmation dialog. */
    method Delete(id: string, confirmed: bool)
      modifies this
      ensures confirmed ==> savedQueries == WithoutQuery(old(savedQueries), id)
      ensures !confirmed ==> savedQueries == old(savedQueries)
      ensures newQueryName == old(newQueryName) && isSaving == old(isSaving)
    {
      if confirmed {
        savedQueries := WithoutQuery(savedQueries, id);
      }
    }

    /** `handleLoad`: the query goes to the editor, then the dialog closes. */
    method Load(query: string) returns (effects: seq<Effect>)
      ensures effects == [LoadQuery(query), Close]
    {
      effects := [LoadQuery(query)];
      effects := effects + [Close];
    }
  }
}
