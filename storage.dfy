/** The popup's local storage area: a flat map from stringified session id
    to session record, written by `persist`. */
module Storage {
  import opened Model
  import opened Capture
  import opened Rename
  import opened ListView

  class SessionStore {
    /** What the storage area holds, key by key. */
    var entries: map<string, Session>

    constructor ()
      ensures entries == map[]
    {
      entries := map[];
    }

    /** `persist`: stores a fresh `storageObject` under the session's id,
        replacing whatever was there, and touches no other key. */
    method Persist(id: nat, title: string, tabArray: seq<TabRecord>, tags: Tags)
      modifies this
      ensures entries == old(entries)[Key(id) := StorageObject(id, title, tabArray, tags)]
      ensures entries.Keys == old(entries).Keys + {Key(id)}
      ensures forall k :: k in entries && k != Key(id) ==> entries[k] == old(entries)[k]
    {
      var dataToStore := StorageObject(id, title, tabArray, tags);
      entries := entries[Key(id) := dataToStore];
    }

    /** `storeIt`, with the timestamp id and the date parts passed in. */
    method StoreIt(tabs: seq<BrowserTab>, id: nat, now: Clock)
      modifies this
      ensures entries == old(entries)[Key(id) := CaptureSession(tabs, id, now)]
    {
      var selected := tabs;
      var count := CountHighlighted(tabs);
      if count > 1 {
        selected := Highlighted(tabs);
      }
      var tabArray := BuildRecords(selected);
      assert selected == SelectTabs(tabs);
      var title := AutoTitle(now, |tabArray|);
      Persist(id, title, tabArray, None);
    }

    /** `validateAndUpdateTitle`: persists the renamed record when the guard
        lets it through, and leaves the storage as it was otherwise. */
    method ValidateAndUpdateTitle(obj: Session, newTitleText: string)
      modifies this
      ensures entries == StoredAfterRename(old(entries), obj, newTitleText)
      ensures RenameWrite(obj, newTitleText).None? ==> entries == old(entries)
      ensures RenameWrite(obj, newTitleText).Some? ==>
        entries == old(entries)[Key(obj.id) := RenameWrite(obj, newTitleText).value]
    {
      var santizedText := SanitizeTitleName(newTitleText);
      if obj.title != santizedText && |santizedText| != 0 {
        Persist(obj.id, santizedText, obj.tabs, obj.tags);
      }
    }

    /** The rename with the corrected guard: compares the sanitised text with
        the title stored now, so the last rename of a stored session wins. */
    method UpdateTitleFromStore(obj: Session, newTitleText: string)
      modifies this
      ensures entries == StoredAfterFreshRename(old(entries), obj, newTitleText)
    {
      var current := obj.title;
      if Key(obj.id) in entries {
        current := entries[Key(obj.id)].title;
      }
      var santizedText := SanitizeTitleName(newTitleText);
      if current != santizedText && |santizedText| != 0 {
        Persist(obj.id, santizedText, obj.tabs, obj.tags);
      }
    }
  }

  /** Persisting one id leaves the entry of every other id as it was. */
  lemma PersistIsolatesIds(entries: map<string, Session>, id: nat, record: Session, other: nat)
    requires other != id
    ensures var after := entries[Key(id) := record];
      (Key(other) in after <==> Key(other) in entries)
      && (Key(other) in entries ==> after[Key(other)] == entries[Key(other)])
  {
    KeyInjective(id, other);
  }

  /** Save then list: when the new key is enumerated last, the first block
      shown is the saved session, with one row per kept tab and a title
      that states that count. */
  lemma SavedSessionIsListedFirst(keys: seq<string>, entries: map<string, Session>,
                                  tabs: seq<BrowserTab>, id: nat, now: Clock)
    ensures var after := entries[Key(id) := CaptureSession(tabs, id, now)];
      var shown := Rendered(keys + [Key(id)], after);
      shown != []
      && shown[0] == BlockOf(CaptureSession(tabs, id, now))
      && |shown[0].rows| == |Records(SelectTabs(tabs))|
      && TabCountOf(shown[0].title) == Some(|shown[0].rows|)
  {
    var after := entries[Key(id) := CaptureSession(tabs, id, now)];
    RenderedNewestFirst(keys, Key(id), after);
  }
}
