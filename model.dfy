/** The values the popup reads from the browser and keeps in storage. */
module Model {
  import opened Text

  datatype Option<T> = None | Some(value: T) {
    function GetOr(default: T): T {
      match this
      case Some(v) => v
      case None => default
    }
  }

  /** A live tab as the browser's tab query reports it. `title` and
      `favIconUrl` may be absent. */
  datatype BrowserTab = BrowserTab(
    id: int,
    url: string,
    title: Option<string>,
    highlighted: bool,
    favIconUrl: Option<string>)

  /** One saved tab: its display label, its address and its favicon (null
      when there is none). */
  datatype TabRecord = TabRecord(textContent: string, url: string, iconUrl: Option<string>)

  /** The reserved tag value; the popup only ever stores null here. */
  type Tags = Option<seq<string>>

  /** A saved session, the `storageObject` kept under its id. */
  datatype Session = Session(
    id: nat,
    title: string,
    tabs: seq<TabRecord>,
    pinned: bool,
    tags: Tags)

  /** The parts of `new Date()` the auto title uses, passed in instead of
      reading a clock: `date` is getDate() (1..31), `month` is getMonth()
      (0 for January), `hours` is getHours(), `minutes` is getMinutes(). */
  datatype Clock = Clock(date: nat, month: nat, hours: nat, minutes: nat)

  /** The `storageObject` constructor: every record it builds is unpinned. */
  function StorageObject(id: nat, title: string, tabs: seq<TabRecord>, tags: Tags): (s: Session)
    ensures !s.pinned
    ensures s.id == id && s.title == title && s.tabs == tabs && s.tags == tags
  {
    Session(id, title, tabs, false, tags)
  }

  /** The storage key of a session: `obj[id]` turns the numeric id into its
      decimal string. */
  function Key(id: nat): (key: string)
    ensures key != [] && AllDigits(key)
    ensures DecimalValue(key) == id
  {
    DecimalRoundTrip(id);
    Decimal(id)
  }

  /** Two sessions share a storage key only if they share an id. */
  lemma KeyInjective(a: nat, b: nat)
    ensures Key(a) == Key(b) <==> a == b
  {
    DecimalInjective(a, b);
  }
}
