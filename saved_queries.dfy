/**
 * The saved-queries state machine: a map from GUID to query text, the GUID
 * and text being edited, and whether that text differs from its saved copy.
 * New GUIDs come from an oracle and are passed in as `freshGuid`.
 */
module SavedQueries {
  import opened Wrappers

  /** The text under `guid` is saved and equal to `text`. */
  predicate InSync(saved: map<string, string>, guid: string, text: string)
  {
    guid in saved && saved[guid] == text
  }

  /** JavaScript truthiness of the current GUID: neither `null` nor the empty text. */
  predicate Truthy(guid: Option<string>)
  {
    guid.Some? && guid.value != ""
  }

  /** A GUID the oracle may hand out: non-empty and not yet a key. */
  predicate Fresh(saved: map<string, string>, guid: string)
  {
    guid != "" && guid !in saved
  }

  class SavedQueriesService {
    var savedQueries: map<string, string>
    var currentGuid: Option<string>
    var currentQuery: string
    var isDirty: bool

    /** Once a query is current, `isDirty` says exactly whether its text differs from the saved copy (or has none). */
    ghost predicate Valid()
      reads this
    {
      currentGuid.Some? ==> (isDirty <==> !InSync(savedQueries, currentGuid.value, currentQuery))
    }

    /** Nothing saved, nothing current, nothing dirty; loading from the server is not part of this model. */
    constructor()
      ensures Valid()
      ensures savedQueries == map[] && currentGuid == None && currentQuery == "" && !isDirty
    {
      savedQueries := map[];
      currentGuid := None;
      currentQuery := "";
      isDirty := false;
    }

    /** `newQuery`: a fresh GUID with empty text, unsaved; the saved map is untouched. */
    method NewQuery(freshGuid: string)
      requires Valid() && Fresh(savedQueries, freshGuid)
      modifies this
      ensures Valid()
      ensures savedQueries == old(savedQueries)
      ensures currentGuid == Some(freshGuid) && currentQuery == "" && isDirty
    {
      currentGuid := Some(freshGuid);
      currentQuery := "";
      isDirty := true;
    }

    /**
     * `setQueryText`: the text becomes current; with a current GUID it is
     * dirty exactly when it differs from that GUID's saved text, without one a
     * fresh GUID is taken and the text is dirty.
     */
    method SetQueryText(text: string, freshGuid: string)
      requires Valid() && Fresh(savedQueries, freshGuid)
      modifies this
      ensures Valid()
      ensures savedQueries == old(savedQueries) && currentQuery == text
      ensures Truthy(old(currentGuid)) ==>
                currentGuid == old(currentGuid) && isDirty == !InSync(savedQueries, currentGuid.value, text)
      ensures !Truthy(old(currentGuid)) ==> currentGuid == Some(freshGuid) && isDirty
    {
      currentQuery := text;
      var guid := currentGuid;
      if guid.Some? && guid.value != "" {
        isDirty := !InSync(savedQueries, guid.value, text);
      } else {
        currentGuid := Some(freshGuid);
        isDirty := true;
      }
    }

    /** `selectQuery`: a saved GUID becomes current with its saved text, clean; any other GUID changes nothing. */
    method SelectQuery(guid: string)
      requires Valid()
      modifies this
      ensures Valid()
      ensures savedQueries == old(savedQueries)
      ensures guid in savedQueries ==> currentGuid == Some(guid) && currentQuery == savedQueries[guid] && !isDirty
      ensures guid !in savedQueries ==>
                currentGuid == old(currentGuid) && currentQuery == old(currentQuery) && isDirty == old(isDirty)
    {
      var queries := savedQueries;
      if guid in queries {
        currentGuid := Some(guid);
        currentQuery := queries[guid];
        isDirty := false;
      }
    }

    /**
     * `save`: the current text is stored under the current GUID, or under a
     * fresh one when there is none; every other entry stays and the text is
     * clean.
     */
    method Save(freshGuid: string)
      requires Valid() && Fresh(savedQueries, freshGuid)
      modifies this
      ensures Valid()
      ensures currentGuid == Some(if old(currentGuid).Some? then old(currentGuid).value else freshGuid)
      ensures savedQueries == old(savedQueries)[currentGuid.value := old(currentQuery)]
      ensures currentQuery == old(currentQuery) && !isDirty
      ensures InSync(savedQueries, currentGuid.value, currentQuery)
    {
      var guid := if currentGuid.Some? then currentGuid.value else freshGuid;
      currentGuid := Some(guid);
      var query := currentQuery;
      savedQueries := savedQueries[guid := query];
      isDirty := false;
    }

    /**
     * `duplicate`: the current text is stored under a fresh GUID, which becomes
     * current; the text stays, clean, and every other entry stays.
     */
    method Duplicate(freshGuid: string)
      requires Valid() && Fresh(savedQueries, freshGuid)
      modifies this
      ensures Valid()
      ensures savedQueries == old(savedQueries)[freshGuid := old(currentQuery)]
      ensures freshGuid !in old(savedQueries) && |savedQueries| == |old(savedQueries)| + 1
      ensures currentGuid == Some(freshGuid) && currentQuery == old(currentQuery) && !isDirty
    {
      var newGuid := freshGuid;
      var query := currentQuery;
      savedQueries := savedQueries[newGuid := query];
      currentGuid := Some(newGuid);
      isDirty := false;
    }
  }
}
