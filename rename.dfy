/** Renaming a session: cleaning up the typed title and deciding whether
    the new title is written at all. */
module Rename {
  import opened Text
  import opened Model

  const MaxTitleLength := 40

  /** `santizeTitleName`. A typed title of 40 characters or more is cut to
      its first 40 characters and is NOT trimmed; a shorter one is trimmed. */
  function SanitizeTitleName(titleText: string): (r: string)
    ensures |r| <= MaxTitleLength
    ensures |titleText| >= MaxTitleLength ==> r == titleText[..MaxTitleLength]
    ensures |titleText| < MaxTitleLength ==> r == Trim(titleText)
    ensures r == [] <==> |titleText| < MaxTitleLength && AllWhitespace(titleText)
  {
    if |titleText| >= MaxTitleLength then titleText[..MaxTitleLength] else Trim(titleText)
  }

  /** Sanitising a sanitised title changes nothing. */
  lemma SanitizeIdempotent(titleText: string)
    ensures SanitizeTitleName(SanitizeTitleName(titleText)) == SanitizeTitleName(titleText)
  {
    var r := SanitizeTitleName(titleText);
    if |titleText| < MaxTitleLength {
      assert r == Trim(titleText) && |r| < MaxTitleLength;
      TrimIdempotent(titleText);
    } else {
      assert r == titleText[..MaxTitleLength] && |r| == MaxTitleLength;
      assert r[..MaxTitleLength] == r;
    }
  }

  /** Forty spaces are cut, not trimmed: the result is forty spaces, a
      non-empty title. */
  lemma LongBlankTitleIsKept()
    ensures var blank := seq(MaxTitleLength, _ => ' ');
            SanitizeTitleName(blank) == blank && blank != []
  {
  }

  /** The guard in `validateAndUpdateTitle`: the record to persist, or None
      when nothing is written. */
  function RenameWrite(obj: Session, newTitleText: string): (w: Option<Session>)
    ensures w.Some? <==> SanitizeTitleName(newTitleText) != [] && SanitizeTitleName(newTitleText) != obj.title
    ensures w.Some? ==> w.value.id == obj.id && w.value.tabs == obj.tabs && w.value.tags == obj.tags
    ensures w.Some? ==> w.value.title == SanitizeTitleName(newTitleText) && !w.value.pinned
  {
    var santizedText := SanitizeTitleName(newTitleText);
    if obj.title != santizedText && |santizedText| != 0 then
      Some(StorageObject(obj.id, santizedText, obj.tabs, obj.tags))
    else None
  }

  /** A written title is non-empty, at most 40 characters long and already
      in sanitised form. */
  lemma RenamedTitleIsSanitized(obj: Session, newTitleText: string)
    ensures RenameWrite(obj, newTitleText).Some? ==>
      var t := RenameWrite(obj, newTitleText).value.title;
      t != [] && |t| <= MaxTitleLength && SanitizeTitleName(t) == t
  {
    SanitizeIdempotent(newTitleText);
  }

  /** Renaming a session to its own (sanitised) title writes nothing. */
  lemma RenameToCurrentTitleIsNoOp(obj: Session)
    requires SanitizeTitleName(obj.title) == obj.title
    ensures RenameWrite(obj, obj.title) == None
  {
  }

  /** Once the session has been read back from storage, repeating a rename
      that was written writes nothing the second time. */
  lemma RenameIsIdempotent(obj: Session, newTitleText: string)
    ensures RenameWrite(obj, newTitleText).Some? ==>
      RenameWrite(RenameWrite(obj, newTitleText).value, newTitleText) == None
  {
  }

  /** An empty or all-whitespace title shorter than 40 characters is ignored. */
  lemma RenameBlankIsIgnored(obj: Session, newTitleText: string)
    requires |newTitleText| < MaxTitleLength && AllWhitespace(newTitleText)
    ensures RenameWrite(obj, newTitleText) == None
  {
  }

  /** Forty spaces typed over "Old" are written as the new title. */
  lemma RenameLongBlankIsWritten(obj: Session)
    requires obj.title == "Old"
    ensures RenameWrite(obj, seq(MaxTitleLength, _ => ' ')).Some?
  {
    LongBlankTitleIsKept();
  }

  /** The storage after `validateAndUpdateTitle(obj, newTitleText)`: the
      renamed record under the session's key when the guard lets it
      through, and nothing changed otherwise. No other key is touched. */
  function StoredAfterRename(entries: map<string, Session>, obj: Session, newTitleText: string)
    : (after: map<string, Session>)
    ensures RenameWrite(obj, newTitleText).None? ==> after == entries
    ensures RenameWrite(obj, newTitleText).Some? ==>
      Key(obj.id) in after && after[Key(obj.id)] == RenameWrite(obj, newTitleText).value
    ensures after.Keys == entries.Keys || after.Keys == entries.Keys + {Key(obj.id)}
    ensures forall k :: k in entries && k != Key(obj.id) ==> k in after && after[k] == entries[k]
  {
    match RenameWrite(obj, newTitleText)
    case None => entries
    case Some(s) => entries[Key(obj.id) := s]
  }

  /** Every title-edit handler of one rendered block passes the same `obj`:
      handling the same text twice leaves the storage as handling it once. */
  lemma RenameSameObjectTwice(entries: map<string, Session>, obj: Session, newTitleText: string)
    ensures var once := StoredAfterRename(entries, obj, newTitleText);
      StoredAfterRename(once, obj, newTitleText) == once
  {
    var once := StoredAfterRename(entries, obj, newTitleText);
    if RenameWrite(obj, newTitleText).Some? {
      var k := Key(obj.id);
      var w := RenameWrite(obj, newTitleText).value;
      assert once == entries[k := w];
      assert once[k := w] == once;
    }
  }

  /** As written: the handlers compare against the title the block was
      rendered with. Renaming a session to a new title and then back to the
      rendered one in the same rendering writes the new title and then
      nothing, so the new title stays stored ("Old" to "New" and back
      leaves "New"). */
  lemma StaleRenameBackIsLost(entries: map<string, Session>, obj: Session, newTitleText: string)
    requires obj.title != [] && SanitizeTitleName(obj.title) == obj.title
    requires SanitizeTitleName(newTitleText) != [] && SanitizeTitleName(newTitleText) != obj.title
    ensures var first := StoredAfterRename(entries, obj, newTitleText);
      var second := StoredAfterRename(first, obj, obj.title);
      Key(obj.id) in second && second[Key(obj.id)].title == SanitizeTitleName(newTitleText)
      && second[Key(obj.id)].title != obj.title
  {
    var first := StoredAfterRename(entries, obj, newTitleText);
    assert RenameWrite(obj, obj.title).None?;
    assert StoredAfterRename(first, obj, obj.title) == first;
  }

  /** Corrected rename: the guard compares against the title stored now
      (the rendered one when the session is not stored) rather than the one
      captured when the block was rendered. */
  function StoredAfterFreshRename(entries: map<string, Session>, obj: Session, newTitleText: string)
    : (after: map<string, Session>)
    ensures Key(obj.id) in entries && SanitizeTitleName(newTitleText) != [] ==>
      Key(obj.id) in after && after[Key(obj.id)].title == SanitizeTitleName(newTitleText)
    ensures SanitizeTitleName(newTitleText) == [] ==> after == entries
    ensures forall k :: k in entries && k != Key(obj.id) ==> k in after && after[k] == entries[k]
  {
    var current := if Key(obj.id) in entries then entries[Key(obj.id)].title else obj.title;
    StoredAfterRename(entries, obj.(title := current), newTitleText)
  }

  /** With the corrected guard the last rename of a stored session wins:
      renaming it to a new title and back leaves the old title stored. */
  lemma FreshRenameBackIsKept(entries: map<string, Session>, obj: Session, newTitleText: string)
    requires Key(obj.id) in entries
    requires var stored := entries[Key(obj.id)].title; stored != [] && SanitizeTitleName(stored) == stored
    requires SanitizeTitleName(newTitleText) != []
    ensures var first := StoredAfterFreshRename(entries, obj, newTitleText);
      var second := StoredAfterFreshRename(first, obj, entries[Key(obj.id)].title);
      Key(obj.id) in second && second[Key(obj.id)].title == entries[Key(obj.id)].title
  {
    var first := StoredAfterFreshRename(entries, obj, newTitleText);
    assert Key(obj.id) in first;
  }

  lemma TrimStartOfExample()
    ensures TrimStart("   New Title   ") == "New Title   "
  {
    assert !IsWhitespace('N');
    assert TrimStart("New Title   ") == "New Title   ";
    assert " New Title   "[1..] == "New Title   ";
    assert TrimStart(" New Title   ") == "New Title   ";
    assert "  New Title   "[1..] == " New Title   ";
    assert TrimStart("  New Title   ") == "New Title   ";
    assert "   New Title   "[1..] == "  New Title   ";
  }

  lemma TrimEndOfExample()
    ensures TrimEnd("New Title   ") == "New Title"
  {
    assert "New Title   "[..11] == "New Title  ";
    assert "New Title  "[..10] == "New Title ";
    assert "New Title "[..9] == "New Title";
    assert TrimEnd("New Title") == "New Title";
  }

  /** "   New Title   " typed over "Old" is written trimmed. */
  lemma RenameExample(obj: Session)
    requires obj.title == "Old"
    ensures RenameWrite(obj, "   New Title   ") == Some(Session(obj.id, "New Title", obj.tabs, false, obj.tags))
  {
    TrimStartOfExample();
    TrimEndOfExample();
    assert SanitizeTitleName("   New Title   ") == "New Title";
    assert "New Title" != "Old" by { assert |"Old"| == 3; }
  }
}
