/** What `createList` puts on screen, without the DOM: one block per stored
    session, newest key first, and one row per saved tab. */
module ListView {
  import opened Model

  const CutoffLength := 30
  const Ellipsis := "..."

  /** A tab's row label: labels of 30 characters or more are cut to 30
      characters and marked with an ellipsis. */
  function Label(textContent: string): (shown: string)
    ensures |textContent| < CutoffLength ==> shown == textContent
    ensures |textContent| >= CutoffLength ==>
      |shown| == CutoffLength + |Ellipsis|
      && shown[..CutoffLength] == textContent[..CutoffLength]
      && shown[CutoffLength..] == Ellipsis
    ensures |shown| <= CutoffLength + |Ellipsis|
  {
    if |textContent| >= CutoffLength then textContent[..CutoffLength] + Ellipsis
    else textContent
  }

  /** A label of exactly 30 characters is still cut and gets the ellipsis. */
  lemma LabelAtCutoff(textContent: string)
    requires |textContent| == CutoffLength
    ensures Label(textContent) == textContent + Ellipsis
  {
  }

  /** One list item: the label shown and the URL a click opens. */
  datatype Row = Row(text: string, url: string)

  /** One session's entry: the element id, the title, the rows. */
  datatype Block = Block(id: nat, title: string, rows: seq<Row>)

  /** The rows of a session, in tab order. */
  function Rows(tabs: seq<TabRecord>): (rows: seq<Row>)
    ensures |rows| == |tabs|
    ensures forall i :: 0 <= i < |tabs| ==> rows[i] == Row(Label(tabs[i].textContent), tabs[i].url)
  {
    if tabs == [] then []
    else Rows(tabs[..|tabs| - 1]) + [Row(Label(tabs[|tabs| - 1].textContent), tabs[|tabs| - 1].url)]
  }

  function BlockOf(s: Session): Block {
    Block(s.id, s.title, Rows(s.tabs))
  }

  /** The order `unshift` leaves `idArray` in: the enumeration reversed. */
  function Reverse<T>(s: seq<T>): (r: seq<T>)
    ensures |r| == |s|
    ensures forall i :: 0 <= i < |s| ==> r[i] == s[|s| - 1 - i]
  {
    if s == [] then [] else [s[|s| - 1]] + Reverse(s[..|s| - 1])
  }

  /** One block per id that is an own key of the stored object, in the
      order of `ids`; other ids are skipped. */
  function BlocksOf(ids: seq<string>, store: map<string, Session>): (blocks: seq<Block>)
    ensures |blocks| <= |ids|
    ensures forall b :: b in blocks ==> exists k :: k in ids && k in store && b == BlockOf(store[k])
  {
    if ids == [] then []
    else
      var last := ids[|ids| - 1];
      assert ids == ids[..|ids| - 1] + [last];
      BlocksOf(ids[..|ids| - 1], store) + (if last in store then [BlockOf(store[last])] else [])
  }

  lemma {:induction false} BlocksOfAppend(a: seq<string>, b: seq<string>, store: map<string, Session>)
    ensures BlocksOf(a + b, store) == BlocksOf(a, store) + BlocksOf(b, store)
  {
    if b != [] {
      var b' := b[..|b| - 1];
      assert (a + b)[..|a + b| - 1] == a + b';
      BlocksOfAppend(a, b', store);
    } else {
      assert a + b == a;
    }
  }

  /** The list `createList` renders for a storage object whose keys
      enumerate in the order `keys`. */
  function Rendered(keys: seq<string>, store: map<string, Session>): (shown: seq<Block>)
    ensures |shown| <= |keys|
    ensures forall b :: b in shown ==> exists k :: k in keys && k in store && b == BlockOf(store[k])
  {
    BlocksOf(Reverse(keys), store)
  }

  /** `createList`: collects the keys with `unshift`, then renders each own
      key's session with one row per tab. */
  method CreateList(keys: seq<string>, store: map<string, Session>) returns (blocks: seq<Block>)
    ensures blocks == Rendered(keys, store)
  {
    var idArray: seq<string> := [];
    for i := 0 to |keys|
      invariant idArray == Reverse(keys[..i])
    {
      assert keys[..i + 1][..i] == keys[..i];
      idArray := [keys[i]] + idArray;
    }
    assert keys[..|keys|] == keys;
    blocks := [];
    for j := 0 to |idArray|
      invariant blocks == BlocksOf(idArray[..j], store)
    {
      assert idArray[..j + 1][..j] == idArray[..j];
      var id := idArray[j];
      if id in store {
        var obj := store[id];
        var rows: seq<Row> := [];
        for k := 0 to |obj.tabs|
          invariant rows == Rows(obj.tabs[..k])
        {
          assert obj.tabs[..k + 1][..k] == obj.tabs[..k];
          var tab := obj.tabs[k];
          rows := rows + [Row(Label(tab.textContent), tab.url)];
        }
        assert obj.tabs[..|obj.tabs|] == obj.tabs;
        blocks := blocks + [Block(obj.id, obj.title, rows)];
      }
    }
    assert idArray[..|idArray|] == idArray;
    assert blocks == BlocksOf(Reverse(keys), store);
  }

  /** A key enumerated last is rendered first when it is an own key. */
  lemma RenderedNewestFirst(keys: seq<string>, k: string, store: map<string, Session>)
    requires k in store
    ensures Rendered(keys + [k], store) == [BlockOf(store[k])] + Rendered(keys, store)
  {
    assert Reverse(keys + [k]) == [k] + Reverse(keys);
    BlocksOfAppend([k], Reverse(keys), store);
    assert BlocksOf([k], store) == [BlockOf(store[k])] by { assert [k][..0] == []; }
  }

  /** A key that is not an own key (an inherited one) renders nothing. */
  lemma RenderedSkipsInherited(keys: seq<string>, k: string, store: map<string, Session>)
    requires k !in store
    ensures Rendered(keys + [k], store) == Rendered(keys, store)
  {
    assert Reverse(keys + [k]) == [k] + Reverse(keys);
    BlocksOfAppend([k], Reverse(keys), store);
    assert BlocksOf([k], store) == [] by { assert [k][..0] == []; }
  }

  /** When every enumerated key is an own key, block i shows the session of
      the i-th key from the end. */
  lemma {:induction false} RenderedPositions(keys: seq<string>, store: map<string, Session>)
    requires forall k :: k in keys ==> k in store
    ensures |Rendered(keys, store)| == |keys|
    ensures forall i :: 0 <= i < |keys| ==> Rendered(keys, store)[i] == BlockOf(store[keys[|keys| - 1 - i]])
  {
    if keys != [] {
      var front := keys[..|keys| - 1];
      var k := keys[|keys| - 1];
      assert keys == front + [k];
      RenderedPositions(front, store);
      RenderedNewestFirst(front, k, store);
    }
  }
}
