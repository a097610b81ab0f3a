/**
 * The `strings.xml` side: the children of the `<resources>` root, how the
 * converter indexes them by name (`parserXmlDoc`) and how it merges a
 * language column into them (`merge`).  The children live in an array,
 * so that updating the text of one of them updates the document in
 * place, as it does in the XML tree; the index maps names to positions in
 * that array.
 */
module Resources {
  import opened Wrappers
  import opened Text
  import opened LinkedMaps
  import opened Escaping

  /** A child of the root: its `name` attribute (`None` when it has none) and its text. */
  datatype Element = Element(name: Option<string>, text: string)

  predicate AllNamed(d: seq<Element>) {
    forall i :: 0 <= i < |d| ==> d[i].name.Some?
  }

  /** The name an element is indexed under. */
  function Key(e: Element): string
    requires e.name.Some?
  {
    Trim(e.name.value)
  }

  // ---------------------------------------------------------------------
  // `parserXmlDoc`

  /** What child `i` contributes to the index: its trimmed name with its position. */
  function XmlEntries(d: seq<Element>): (es: seq<Option<(string, nat)>>)
    ensures |es| == |d|
    ensures forall i :: 0 <= i < |d| ==> es[i] == (if d[i].name.Some? then Some((Key(d[i]), i)) else None)
  {
    seq(|d|, i requires 0 <= i < |d| => if d[i].name.Some? then Some((Key(d[i]), i as nat)) else None)
  }

  /** The index `parserXmlDoc` builds: the children put one after the other. */
  function XmlMap(d: seq<Element>): LinkedMap<nat> {
    FromEntries(XmlEntries(d))
  }

  /**
   * `parserXmlDoc(doc)`.  Reading the `name` of a child that has none
   * throws, which the converter does not catch: `None`.
   */
  method ParseXmlDoc(doc: array<Element>) returns (r: Option<LinkedMap<nat>>)
    ensures r.None? <==> !AllNamed(doc[..])
    ensures r.Some? ==> Valid(r.value) && r.value == XmlMap(doc[..])
  {
    ghost var d := doc[..];
    ghost var es := XmlEntries(d);
    var m: LinkedMap<nat> := Empty();
    for i := 0 to doc.Length
      invariant m == FromEntries(es[..i])
      invariant AllNamed(d[..i])
    {
      var e := doc[i];
      assert d[i] == e;
      assert d[..i + 1] == d[..i] + [e];
      if e.name.None? {
        return None;
      }
      FromEntriesSnoc(es, i);
      assert es[i] == Some((Trim(e.name.value), i));
      m := Put(m, Trim(e.name.value), i);
    }
    assert es[..doc.Length] == es;
    assert d[..doc.Length] == d;
    r := Some(m);
  }

  /** Child `i` is the last one indexed under its name: the one the index points to. */
  predicate IsKeyIndex(d: seq<Element>, i: int) {
    0 <= i < |d| && d[i].name.Some?
    && forall j :: i < j < |d| && d[j].name.Some? ==> Key(d[j]) != Key(d[i])
  }

  /** The names every child is indexed under. */
  function Names(d: seq<Element>): set<string> {
    set i | 0 <= i < |d| && d[i].name.Some? :: Key(d[i])
  }

  /** The index holds exactly the names of the children. */
  lemma XmlMapKeys(d: seq<Element>)
    ensures XmlMap(d).vals.Keys == Names(d)
  {
    var es := XmlEntries(d);
    forall k | k in XmlMap(d).vals
      ensures k in Names(d)
    {
      FromEntriesDomain(es, k);
      var i :| KeyAt(es, i, k);
    }
    forall k | k in Names(d)
      ensures k in XmlMap(d).vals
    {
      var i :| 0 <= i < |d| && d[i].name.Some? && Key(d[i]) == k;
      assert KeyAt(es, i, k);
      FromEntriesDomain(es, k);
    }
  }

  /** Each name points to the last child indexed under it. */
  lemma XmlMapPointsToLast(d: seq<Element>, k: string)
    requires k in XmlMap(d).vals
    ensures IsKeyIndex(d, XmlMap(d).vals[k]) && Key(d[XmlMap(d).vals[k]]) == k
  {
    var es := XmlEntries(d);
    FromEntriesLastPut(es, k);
    var i :| KeyAt(es, i, k) && es[i].value.1 == XmlMap(d).vals[k] && forall j :: i < j < |es| ==> !KeyAt(es, j, k);
    forall j | i < j < |d| && d[j].name.Some?
      ensures Key(d[j]) != k
    {
      assert !KeyAt(es, j, k);
    }
  }

  /** The last child under a name is the one the index points to. */
  lemma XmlMapFindsKeyIndex(d: seq<Element>, i: int)
    requires IsKeyIndex(d, i)
    ensures Key(d[i]) in XmlMap(d).vals && XmlMap(d).vals[Key(d[i])] == i
  {
    var es := XmlEntries(d);
    forall j | i < j < |es|
      ensures !KeyAt(es, j, Key(d[i]))
    {
    }
    FromEntriesLastWins(es, i);
  }

  /** Different names point to different children. */
  lemma XmlMapInjective(d: seq<Element>, k1: string, k2: string)
    requires k1 in XmlMap(d).vals && k2 in XmlMap(d).vals && k1 != k2
    ensures XmlMap(d).vals[k1] != XmlMap(d).vals[k2]
  {
    XmlMapPointsToLast(d, k1);
    XmlMapPointsToLast(d, k2);
  }

  // ---------------------------------------------------------------------
  // `merge`

  /** A child the index points to, after `merge`: the column's text when it has one for the name, else its own, escaped. */
  function Refreshed(e: Element, k: string, excel: LinkedMap<string>): Element {
    Element(e.name, EscapeContent(Some(if k in excel.vals then excel.vals[k] else e.text)))
  }

  /** The child `merge` creates for a name of the column that no child has: the column's text, trimmed and escaped. */
  function NewElement(k: string, vals: map<string, string>): Element
    requires k in vals
  {
    Element(Some(k), EscapeContent(Some(Trim(vals[k]))))
  }

  /** The children `merge` creates for the names in `ks`, in that order. */
  function NewElements(ks: seq<string>, vals: map<string, string>): seq<Element>
    requires forall k :: k in ks ==> k in vals
  {
    if ks == [] then [] else NewElements(ks[..|ks| - 1], vals) + [NewElement(ks[|ks| - 1], vals)]
  }

  lemma {:induction false} NewElementsLength(ks: seq<string>, vals: map<string, string>)
    requires forall k :: k in ks ==> k in vals
    ensures |NewElements(ks, vals)| == |ks|
  {
    if ks != [] {
      NewElementsLength(ks[..|ks| - 1], vals);
    }
  }

  /** The `p`th new child is the one for the `p`th name. */
  lemma {:induction false} NewElementsAt(ks: seq<string>, vals: map<string, string>, p: int)
    requires forall k :: k in ks ==> k in vals
    requires 0 <= p < |ks|
    ensures p < |NewElements(ks, vals)| && NewElements(ks, vals)[p] == NewElement(ks[p], vals)
  {
    var init := ks[..|ks| - 1];
    NewElementsLength(init, vals);
    if p < |ks| - 1 {
      NewElementsAt(init, vals, p);
      assert init[p] == ks[p];
    }
  }

  /** The index is one-to-one and points into the document. */
  ghost predicate IndexOf(xml: LinkedMap<nat>, n: nat) {
    Valid(xml)
    && (forall k :: k in xml.vals ==> xml.vals[k] < n)
    && (forall k1, k2 :: k1 in xml.vals && k2 in xml.vals && k1 != k2 ==> xml.vals[k1] != xml.vals[k2])
  }

  /**
   * `merge(excel, xml)`: every child the index points to is refreshed in
   * place; the names of the column that are not in the index become new
   * children, returned in the column's order.
   */
  method Merge(excel: LinkedMap<string>, xml: LinkedMap<nat>, doc: array<Element>) returns (added: seq<Element>)
    requires Valid(excel) && IndexOf(xml, doc.Length)
    modifies doc
    ensures forall k :: k in xml.vals ==> doc[xml.vals[k]] == Refreshed(old(doc[xml.vals[k]]), k, excel)
    ensures forall i :: 0 <= i < doc.Length && i !in xml.vals.Values ==> doc[i] == old(doc[i])
    ensures added == NewElements(Without(excel.keys, xml.vals.Keys), excel.vals)
  {
    ghost var d0 := doc[..];
    var pending := ReplaceOld(excel, xml, doc);
    RefreshedDoc(d0, doc[..], xml, excel);
    assert forall i :: 0 <= i < doc.Length ==> doc[i] == doc[..][i] && old(doc[i]) == d0[i];
    PendingEnd(excel, xml, doc.Length);
    added := AddNew(pending, excel.vals);
  }

  /** After the first loop, the children the index points to are refreshed and the others are as they were. */
  lemma RefreshedDoc(d0: seq<Element>, d: seq<Element>, xml: LinkedMap<nat>, excel: LinkedMap<string>)
    requires IndexOf(xml, |d0|) && InBounds(Positions(xml), |d0|)
    requires d == Overwrite(d0, Positions(xml), RefreshedAll(d0, xml.keys, Positions(xml), excel), |xml.keys|)
    ensures |d| == |d0|
    ensures forall k :: k in xml.vals ==> d[xml.vals[k]] == Refreshed(d0[xml.vals[k]], k, excel)
    ensures forall i :: 0 <= i < |d| && i !in xml.vals.Values ==> d[i] == d0[i]
  {
    var pos := Positions(xml);
    var vs := RefreshedAll(d0, xml.keys, pos, excel);
    PositionsOneToOne(xml, |d0|);
    MergeDone(xml, |d0|);
    forall k | k in xml.vals
      ensures d[xml.vals[k]] == Refreshed(d0[xml.vals[k]], k, excel)
    {
      var p :| 0 <= p < |xml.keys| && xml.keys[p] == k;
      OverwriteVisited(d0, pos, vs, |xml.keys|, p);
    }
    forall i | 0 <= i < |d| && i !in xml.vals.Values
      ensures d[i] == d0[i]
    {
      forall p | 0 <= p < |xml.keys|
        ensures pos[p] != i
      {
        assert xml.keys[p] in xml.vals;
      }
      OverwriteUntouched(d0, pos, vs, |xml.keys|, i);
    }
  }

  /** The first loop of `merge`: refresh each child the index points to, in the index's order, and drop its name from the column. */
  method ReplaceOld(excel: LinkedMap<string>, xml: LinkedMap<nat>, doc: array<Element>) returns (pending: LinkedMap<string>)
    requires Valid(excel) && IndexOf(xml, doc.Length)
    modifies doc
    ensures pending == Pending(excel, xml, |xml.keys|)
    ensures InBounds(Positions(xml), doc.Length)
    ensures doc[..] == Overwrite(old(doc[..]), Positions(xml), RefreshedAll(old(doc[..]), xml.keys, Positions(xml), excel), |xml.keys|)
  {
    ghost var d0 := doc[..];
    ghost var pos := Positions(xml);
    PositionsInBounds(xml, doc.Length);
    ghost var vs := RefreshedAll(d0, xml.keys, pos, excel);
    pending := excel;
    PendingStart(excel, xml);
    for j := 0 to |xml.keys|
      invariant pending == Pending(excel, xml, j)
      invariant doc[..] == Overwrite(d0, pos, vs, j)
    {
      var key := xml.keys[j];
      var idx := xml.vals[key];
      assert idx == pos[j];
      PendingStep(excel, xml, j, doc.Length);
      PositionFresh(xml, doc.Length, j);
      OverwriteUntouched(d0, pos, vs, j, idx);
      pending := RefreshAt(doc, idx, key, pending);
    }
  }

  /** One step of the first loop of `merge`: refresh the child at `idx` under name `key` from what is left of the column. */
  method RefreshAt(doc: array<Element>, idx: nat, key: string, pending: LinkedMap<string>) returns (rest: LinkedMap<string>)
    requires idx < doc.Length && Valid(pending)
    modifies doc
    ensures doc[..] == old(doc[..])[idx := Refreshed(old(doc[idx]), key, pending)]
    ensures rest == if key in pending.vals then Remove(pending, key) else pending
  {
    rest := pending;
    if key in pending.vals {
      doc[idx] := doc[idx].(text := pending.vals[key]);
      rest := Remove(pending, key);
    }
    doc[idx] := doc[idx].(text := EscapeContent(Some(doc[idx].text)));
  }

  /** The position of the child under each name of the index, in the order of its names. */
  ghost function Positions(xml: LinkedMap<nat>): (pos: seq<nat>)
    requires Valid(xml)
    ensures |pos| == |xml.keys|
    ensures forall p :: 0 <= p < |pos| ==> pos[p] == xml.vals[xml.keys[p]]
  {
    seq(|xml.keys|, p requires 0 <= p < |xml.keys| => xml.vals[xml.keys[p]])
  }

  predicate InBounds(pos: seq<nat>, n: nat) {
    forall p :: 0 <= p < |pos| ==> pos[p] < n
  }

  predicate OneToOne(pos: seq<nat>) {
    forall p, q :: 0 <= p < q < |pos| ==> pos[p] != pos[q]
  }

  lemma PositionsInBounds(xml: LinkedMap<nat>, n: nat)
    requires IndexOf(xml, n)
    ensures InBounds(Positions(xml), n)
  {
    var pos := Positions(xml);
    forall p | 0 <= p < |pos|
      ensures pos[p] < n
    {
      assert xml.keys[p] in xml.vals;
    }
  }

  /** Different places of the index's order point to different children. */
  lemma PositionsDiffer(xml: LinkedMap<nat>, n: nat, p: int, q: int)
    requires IndexOf(xml, n) && 0 <= p < q < |xml.keys|
    ensures Positions(xml)[p] != Positions(xml)[q]
  {
    DistinctAt(xml.keys, p, q);
    assert xml.keys[p] in xml.vals && xml.keys[q] in xml.vals;
  }

  /** The child the `j`-th name points to is not one an earlier name points to. */
  lemma PositionFresh(xml: LinkedMap<nat>, n: nat, j: int)
    requires IndexOf(xml, n) && 0 <= j < |xml.keys|
    ensures forall p :: 0 <= p < j ==> Positions(xml)[p] != Positions(xml)[j]
  {
    forall p | 0 <= p < j
      ensures Positions(xml)[p] != Positions(xml)[j]
    {
      PositionsDiffer(xml, n, p, j);
    }
  }

  lemma PositionsOneToOne(xml: LinkedMap<nat>, n: nat)
    requires IndexOf(xml, n)
    ensures OneToOne(Positions(xml))
  {
    forall p, q | 0 <= p < q < |xml.keys|
      ensures Positions(xml)[p] != Positions(xml)[q]
    {
      PositionsDiffer(xml, n, p, q);
    }
  }

  /** `d0` with child `pos[p]` replaced by `vs[p]`, one `p < j` after the other. */
  ghost function Overwrite(d0: seq<Element>, pos: seq<nat>, vs: seq<Element>, j: int): (d: seq<Element>)
    requires 0 <= j <= |pos| == |vs| && InBounds(pos, |d0|)
    ensures |d| == |d0|
  {
    if j == 0 then d0
    else Overwrite(d0, pos, vs, j - 1)[pos[j - 1] := vs[j - 1]]
  }

  /** A child no one of the first `j` positions names is as it was. */
  lemma {:induction false} OverwriteUntouched(d0: seq<Element>, pos: seq<nat>, vs: seq<Element>, j: int, i: int)
    requires 0 <= j <= |pos| == |vs| && InBounds(pos, |d0|) && 0 <= i < |d0|
    requires forall p :: 0 <= p < j ==> pos[p] != i
    ensures Overwrite(d0, pos, vs, j)[i] == d0[i]
  {
    if j > 0 {
      OverwriteUntouched(d0, pos, vs, j - 1, i);
    }
  }

  /** With distinct positions, the child at the `p`-th one holds `vs[p]`. */
  lemma {:induction false} OverwriteVisited(d0: seq<Element>, pos: seq<nat>, vs: seq<Element>, j: int, p: int)
    requires 0 <= p < j <= |pos| == |vs| && InBounds(pos, |d0|) && OneToOne(pos)
    ensures Overwrite(d0, pos, vs, j)[pos[p]] == vs[p]
  {
    if p < j - 1 {
      assert pos[p] != pos[j - 1];
      OverwriteVisited(d0, pos, vs, j - 1, p);
    }
  }

  /** The refreshed child for each name of the index, in the order of its names. */
  ghost function RefreshedAll(d0: seq<Element>, keys: seq<string>, pos: seq<nat>, excel: LinkedMap<string>): (vs: seq<Element>)
    requires |pos| == |keys| && InBounds(pos, |d0|)
    ensures |vs| == |keys|
    ensures forall p :: 0 <= p < |keys| ==> vs[p] == Refreshed(d0[pos[p]], keys[p], excel)
  {
    seq(|keys|, p requires 0 <= p < |keys| => Refreshed(d0[pos[p]], keys[p], excel))
  }

  /** The second loop of `merge`: a new child for each name left in the column. */
  method AddNew(pending: LinkedMap<string>, vals: map<string, string>) returns (added: seq<Element>)
    requires forall k :: k in pending.keys ==> k in pending.vals && k in vals && pending.vals[k] == vals[k]
    ensures added == NewElements(pending.keys, vals)
  {
    added := [];
    for j := 0 to |pending.keys|
      invariant added == NewElements(pending.keys[..j], vals)
    {
      var key := pending.keys[j];
      var value := pending.vals[key];
      NewElementsSnoc(pending.keys, vals, j);
      added := added + [Element(Some(key), EscapeContent(Some(Trim(value))))];
    }
    assert pending.keys[..|pending.keys|] == pending.keys;
  }

  lemma NewElementsSnoc(ks: seq<string>, vals: map<string, string>, j: int)
    requires forall k :: k in ks ==> k in vals
    requires 0 <= j < |ks|
    ensures NewElements(ks[..j + 1], vals) == NewElements(ks[..j], vals) + [NewElement(ks[j], vals)]
  {
    assert ks[..j + 1][..j] == ks[..j];
  }

  /** After the first loop, what is left of the column is its names that are not in the index. */
  lemma PendingEnd(excel: LinkedMap<string>, xml: LinkedMap<nat>, n: nat)
    requires Valid(excel) && IndexOf(xml, n)
    ensures var pending := Pending(excel, xml, |xml.keys|);
      pending.keys == Without(excel.keys, xml.vals.Keys)
      && forall k :: k in pending.keys ==> k in pending.vals && k in excel.vals && pending.vals[k] == excel.vals[k]
  {
    MergeDone(xml, n);
  }

  /** The names the first loop of `merge` has visited after `j` steps. */
  ghost function Done(xml: LinkedMap<nat>, j: int): set<string>
    requires 0 <= j <= |xml.keys|
  {
    set p | 0 <= p < j :: xml.keys[p]
  }

  /** What is left of the column after the first loop of `merge` has visited `j` names. */
  ghost function Pending(excel: LinkedMap<string>, xml: LinkedMap<nat>, j: int): LinkedMap<string>
    requires 0 <= j <= |xml.keys|
  {
    LinkedMap(Without(excel.keys, Done(xml, j)), excel.vals - Done(xml, j))
  }

  lemma PendingStart(excel: LinkedMap<string>, xml: LinkedMap<nat>)
    ensures Pending(excel, xml, 0) == excel
  {
    WithoutNothing(excel.keys);
    assert Done(xml, 0) == {};
  }

  /** One step of the first loop: the visited name leaves what is left of the column, if it was there. */
  lemma PendingStep(excel: LinkedMap<string>, xml: LinkedMap<nat>, j: int, n: nat)
    requires Valid(excel) && IndexOf(xml, n) && 0 <= j < |xml.keys|
    ensures Valid(Pending(excel, xml, j))
    ensures var key, pending := xml.keys[j], Pending(excel, xml, j);
      (key in pending.vals <==> key in excel.vals)
      && (key in excel.vals ==> pending.vals[key] == excel.vals[key] && Remove(pending, key) == Pending(excel, xml, j + 1))
      && (key !in excel.vals ==> pending == Pending(excel, xml, j + 1))
  {
    var key := xml.keys[j];
    DoneStep(xml, j);
    var d, d' := Done(xml, j), Done(xml, j + 1);
    WithoutDistinct(excel.keys, d);
    WithoutWithout(excel.keys, d, {key});
    assert excel.vals - d - {key} == excel.vals - d';
    if key !in excel.vals {
      assert excel.vals - d == excel.vals - d';
      WithoutAbsent(excel.keys, d, key);
    }
  }

  /** Each step of the first loop visits a name it has not visited before. */
  lemma DoneStep(xml: LinkedMap<nat>, j: int)
    requires Distinct(xml.keys) && 0 <= j < |xml.keys|
    ensures xml.keys[j] !in Done(xml, j)
    ensures Done(xml, j + 1) == Done(xml, j) + {xml.keys[j]}
  {
    forall p | 0 <= p < j
      ensures xml.keys[p] != xml.keys[j]
    {
      DistinctAt(xml.keys, p, j);
    }
  }

  lemma MergeDone(xml: LinkedMap<nat>, n: nat)
    requires IndexOf(xml, n)
    ensures Done(xml, |xml.keys|) == xml.vals.Keys
    ensures forall k :: k in xml.vals ==> exists p :: 0 <= p < |xml.keys| && xml.keys[p] == k
  {
    forall k | k in xml.vals
      ensures exists p :: 0 <= p < |xml.keys| && xml.keys[p] == k
    {
      assert k in xml.keys;
    }
  }

  // ---------------------------------------------------------------------
  // What the converter does with one document: `parserXmlDoc`, `merge`,
  // and the new children appended after the old ones.

  /**
   * The children of the root afterwards, stated on the children before:
   * the last child under each name is refreshed, earlier children under
   * the same name are left alone, and the column's names that no child has
   * follow as new children, in the column's order.
   */
  ghost function MergeChildren(d: seq<Element>, excel: LinkedMap<string>): seq<Element>
    requires Valid(excel)
  {
    MergedInPlace(d, excel, |d|) + NewElements(Without(excel.keys, Names(d)), excel.vals)
  }

  /** The index `parserXmlDoc` builds is one that `merge` accepts. */
  lemma XmlMapIndexOf(d: seq<Element>)
    ensures IndexOf(XmlMap(d), |d|)
  {
    var xml := XmlMap(d);
    forall k | k in xml.vals
      ensures xml.vals[k] < |d|
    {
      XmlMapPointsToLast(d, k);
    }
    forall k1, k2 | k1 in xml.vals && k2 in xml.vals && k1 != k2
      ensures xml.vals[k1] != xml.vals[k2]
    {
      XmlMapInjective(d, k1, k2);
    }
  }

  /** Child `i` after `merge`, stated on the children before: refreshed when it is the last under its name, else as it was. */
  ghost function MergedChild(d: seq<Element>, excel: LinkedMap<string>, i: int): Element
    requires 0 <= i < |d|
  {
    if IsKeyIndex(d, i) then Refreshed(d[i], Key(d[i]), excel) else d[i]
  }

  /** The first `n` children `merge` leaves in place. */
  ghost function MergedInPlace(d: seq<Element>, excel: LinkedMap<string>, n: nat): seq<Element>
    requires n <= |d|
  {
    if n == 0 then [] else MergedInPlace(d, excel, n - 1) + [MergedChild(d, excel, n - 1)]
  }

  lemma {:induction false} MergedInPlaceLength(d: seq<Element>, excel: LinkedMap<string>, n: nat)
    requires n <= |d|
    ensures |MergedInPlace(d, excel, n)| == n
  {
    if n > 0 {
      MergedInPlaceLength(d, excel, n - 1);
    }
  }

  lemma {:induction false} MergedInPlaceAt(d: seq<Element>, excel: LinkedMap<string>, n: nat, i: int)
    requires 0 <= i < n <= |d|
    ensures i < |MergedInPlace(d, excel, n)| && MergedInPlace(d, excel, n)[i] == MergedChild(d, excel, i)
  {
    MergedInPlaceLength(d, excel, n - 1);
    if i < n - 1 {
      MergedInPlaceAt(d, excel, n - 1, i);
    }
  }

  /** What `merge` promises about an index built by `parserXmlDoc` is `MergeChildren`. */
  lemma MergeIsMergeChildren(d0: seq<Element>, d: seq<Element>, added: seq<Element>, excel: LinkedMap<string>)
    requires Valid(excel) && |d| == |d0|
    requires forall k :: k in XmlMap(d0).vals ==> XmlMap(d0).vals[k] < |d0| && d[XmlMap(d0).vals[k]] == Refreshed(d0[XmlMap(d0).vals[k]], k, excel)
    requires forall i :: 0 <= i < |d| && i !in XmlMap(d0).vals.Values ==> d[i] == d0[i]
    requires added == NewElements(Without(excel.keys, XmlMap(d0).vals.Keys), excel.vals)
    ensures d + added == MergeChildren(d0, excel)
  {
    XmlMapKeys(d0);
    var m := MergedInPlace(d0, excel, |d0|);
    MergedInPlaceLength(d0, excel, |d0|);
    forall i | 0 <= i < |d|
      ensures d[i] == m[i]
    {
      MergedAt(d0, d, excel, i);
      MergedInPlaceAt(d0, excel, |d0|, i);
    }
    assert d == m;
  }

  /** One child after `merge`: refreshed when the index points to it, else as it was. */
  lemma MergedAt(d0: seq<Element>, d: seq<Element>, excel: LinkedMap<string>, i: int)
    requires |d| == |d0| && 0 <= i < |d|
    requires forall k :: k in XmlMap(d0).vals ==> XmlMap(d0).vals[k] < |d0| && d[XmlMap(d0).vals[k]] == Refreshed(d0[XmlMap(d0).vals[k]], k, excel)
    requires i !in XmlMap(d0).vals.Values ==> d[i] == d0[i]
    ensures d[i] == MergedChild(d0, excel, i)
  {
    var xml := XmlMap(d0);
    if IsKeyIndex(d0, i) {
      XmlMapFindsKeyIndex(d0, i);
    } else if i in xml.vals.Values {
      var k :| k in xml.vals && xml.vals[k] == i;
      XmlMapPointsToLast(d0, k);
    }
  }

  /**
   * What `convertColumn` does with the children of the root: index them,
   * merge the column into them and append the new ones.  `None` when a
   * child has no name, where the converter throws.
   */
  method MergeDoc(doc: array<Element>, excel: LinkedMap<string>) returns (r: Option<seq<Element>>)
    requires Valid(excel)
    modifies doc
    ensures r.None? <==> !AllNamed(old(doc[..]))
    ensures r.Some? ==> r.value == MergeChildren(old(doc[..]), excel)
    ensures r.None? ==> doc[..] == old(doc[..])
    ensures r.Some? ==> |r.value| >= doc.Length && doc[..] == r.value[..doc.Length]
  {
    var xml := ParseXmlDoc(doc);
    if xml.None? {
      return None;
    }
    var children := MergeIndexed(doc, excel, xml.value);
    r := Some(children);
  }

  /**
   * `merge` on children indexed by `parserXmlDoc`, followed by line 50:
   * the children left in the array, then the returned new ones.
   */
  method MergeIndexed(doc: array<Element>, excel: LinkedMap<string>, xml: LinkedMap<nat>) returns (children: seq<Element>)
    requires Valid(excel) && xml == XmlMap(doc[..])
    modifies doc
    ensures children == MergeChildren(old(doc[..]), excel)
    ensures |children| >= doc.Length && doc[..] == children[..doc.Length]
  {
    ghost var d0 := doc[..];
    XmlMapIndexOf(d0);
    var added := Merge(excel, xml, doc);
    var kept := doc[..];
    MergeIsMergeChildren(d0, kept, added, excel);
    children := kept + added;
    PrefixOfAppend(kept, added);
  }

  lemma PrefixOfAppend(a: seq<Element>, b: seq<Element>)
    ensures (a + b)[..|a|] == a
  {
  }

  // ---------------------------------------------------------------------
  // Properties of the merged children.

  lemma MergeChildrenLength(d: seq<Element>, excel: LinkedMap<string>)
    requires Valid(excel)
    ensures |MergeChildren(d, excel)| == |d| + |Without(excel.keys, Names(d))|
  {
    MergedPartsLength(d, excel);
  }

  /** The first `|d|` merged children are the old children, each refreshed or left alone. */
  lemma MergeChildrenOld(d: seq<Element>, excel: LinkedMap<string>, i: int)
    requires Valid(excel) && 0 <= i < |d|
    ensures i < |MergeChildren(d, excel)|
    ensures MergeChildren(d, excel)[i] == if IsKeyIndex(d, i) then Refreshed(d[i], Key(d[i]), excel) else d[i]
  {
    MergedInPlaceLength(d, excel, |d|);
    MergedInPlaceAt(d, excel, |d|, i);
  }

  /** The merged children after the first `|d|` are new ones, one per name of the column that no child has, in the column's order. */
  lemma MergeChildrenNew(d: seq<Element>, excel: LinkedMap<string>, p: int)
    requires Valid(excel) && |d| <= p < |MergeChildren(d, excel)|
    ensures p - |d| < |Without(excel.keys, Names(d))|
    ensures MergeChildren(d, excel)[p] == NewElement(Without(excel.keys, Names(d))[p - |d|], excel.vals)
  {
    MergedInPlaceLength(d, excel, |d|);
    MergedPartsAt(d, excel, p);
  }

  /** The name of a new child: the column's names that no child has, in order. */
  lemma MergeNewName(d: seq<Element>, excel: LinkedMap<string>, p: int)
    requires Valid(excel) && |d| <= p < |MergeChildren(d, excel)|
    ensures p - |d| < |Without(excel.keys, Names(d))|
    ensures MergeChildren(d, excel)[p].name == Some(Without(excel.keys, Names(d))[p - |d|])
  {
    MergeChildrenNew(d, excel, p);
  }

  // The two lemmas below state the facts above on the two parts of
  // `MergeChildren`; keeping them apart keeps each proof small.

  lemma MergedPartsLength(d: seq<Element>, excel: LinkedMap<string>)
    requires Valid(excel)
    ensures |MergedInPlace(d, excel, |d|) + NewElements(Without(excel.keys, Names(d)), excel.vals)| == |d| + |Without(excel.keys, Names(d))|
  {
    MergedInPlaceLength(d, excel, |d|);
    NewElementsLength(Without(excel.keys, Names(d)), excel.vals);
  }

  lemma MergedPartsAt(d: seq<Element>, excel: LinkedMap<string>, p: int)
    requires Valid(excel) && |MergedInPlace(d, excel, |d|)| == |d|
    requires |d| <= p < |MergedInPlace(d, excel, |d|) + NewElements(Without(excel.keys, Names(d)), excel.vals)|
    ensures p - |d| < |Without(excel.keys, Names(d))|
    ensures (MergedInPlace(d, excel, |d|) + NewElements(Without(excel.keys, Names(d)), excel.vals))[p]
            == NewElement(Without(excel.keys, Names(d))[p - |d|], excel.vals)
  {
    AppendedAt(MergedInPlace(d, excel, |d|), Without(excel.keys, Names(d)), excel.vals, p);
  }

  /** Past the old children, the children appended for `ks` follow in order. */
  lemma AppendedAt(m: seq<Element>, ks: seq<string>, vals: map<string, string>, p: int)
    requires forall k :: k in ks ==> k in vals
    requires |m| <= p < |m + NewElements(ks, vals)|
    ensures p - |m| < |ks| && (m + NewElements(ks, vals))[p] == NewElement(ks[p - |m|], vals)
  {
    NewElementsLength(ks, vals);
    NewElementsAt(ks, vals, p - |m|);
  }

  /** A name in both the document and the column: its last child gets the column's text, and no new child is made for it. */
  lemma MergeUpdateWins(d: seq<Element>, excel: LinkedMap<string>, i: int)
    requires Valid(excel) && IsKeyIndex(d, i) && Key(d[i]) in excel.vals
    ensures i < |MergeChildren(d, excel)|
    ensures MergeChildren(d, excel)[i] == Element(d[i].name, EscapeContent(Some(excel.vals[Key(d[i])])))
    ensures forall p :: |d| <= p < |MergeChildren(d, excel)| ==> MergeChildren(d, excel)[p].name != Some(Key(d[i]))
  {
    MergeChildrenOld(d, excel, i);
    assert Key(d[i]) in Names(d);
    forall p | |d| <= p < |MergeChildren(d, excel)|
      ensures MergeChildren(d, excel)[p].name != Some(Key(d[i]))
    {
      MergeChildrenNew(d, excel, p);
      var ks := Without(excel.keys, Names(d));
      assert ks[p - |d|] in ks;
    }
  }

  /** A name of the document that the column lacks: its last child keeps its text, escaped again. */
  lemma MergeKeepsOldText(d: seq<Element>, excel: LinkedMap<string>, i: int)
    requires Valid(excel) && IsKeyIndex(d, i) && Key(d[i]) !in excel.vals
    ensures i < |MergeChildren(d, excel)|
    ensures MergeChildren(d, excel)[i] == Element(d[i].name, EscapeContent(Some(d[i].text)))
  {
    MergeChildrenOld(d, excel, i);
  }

  /** A child shadowed by a later child under the same name is left exactly as it was, not even escaped. */
  lemma MergeLeavesShadowed(d: seq<Element>, excel: LinkedMap<string>, i: int)
    requires Valid(excel) && 0 <= i < |d| && !IsKeyIndex(d, i)
    ensures i < |MergeChildren(d, excel)|
    ensures MergeChildren(d, excel)[i] == d[i]
  {
    MergeChildrenOld(d, excel, i);
  }

  /** Exactly the column's names that no child has get a new child, after the old ones. */
  lemma MergeAppendsNew(d: seq<Element>, excel: LinkedMap<string>, k: string)
    requires Valid(excel)
    ensures (exists p :: |d| <= p < |MergeChildren(d, excel)| && MergeChildren(d, excel)[p].name == Some(k))
            <==> k in excel.vals && k !in Names(d)
  {
    var ks := Without(excel.keys, Names(d));
    if k in excel.vals && k !in Names(d) {
      assert k in ks;
      var j :| 0 <= j < |ks| && ks[j] == k;
      MergeChildrenLength(d, excel);
      MergeChildrenNew(d, excel, |d| + j);
    }
    if p :| |d| <= p < |MergeChildren(d, excel)| && MergeChildren(d, excel)[p].name == Some(k) {
      MergeChildrenNew(d, excel, p);
      assert ks[p - |d|] in ks;
    }
  }

  /** A new child under `k` is the only one, and holds the column's text for `k`, trimmed and escaped. */
  lemma MergeAppendsOnce(d: seq<Element>, excel: LinkedMap<string>, k: string, p: int, q: int)
    requires Valid(excel) && |d| <= p < |MergeChildren(d, excel)| && |d| <= q < |MergeChildren(d, excel)|
    requires MergeChildren(d, excel)[p].name == Some(k) && MergeChildren(d, excel)[q].name == Some(k)
    ensures p == q
    ensures k in excel.vals && MergeChildren(d, excel)[p].text == EscapeContent(Some(Trim(excel.vals[k])))
  {
    var ks := Without(excel.keys, Names(d));
    MergeChildrenNew(d, excel, p);
    MergeChildrenNew(d, excel, q);
    assert ks[p - |d|] == k == ks[q - |d|];
    WithoutDistinct(excel.keys, Names(d));
    if p < q {
      DistinctAt(ks, p - |d|, q - |d|);
    } else if q < p {
      DistinctAt(ks, q - |d|, p - |d|);
    }
    assert k in ks;
  }

  /** The new children are in the order of the column. */
  lemma MergeAppendsInColumnOrder(d: seq<Element>, excel: LinkedMap<string>, p: int, q: int, a: int, b: int)
    requires Valid(excel)
    requires |d| <= p < q < |MergeChildren(d, excel)| && 0 <= a < |excel.keys| && 0 <= b < |excel.keys|
    requires MergeChildren(d, excel)[p].name == Some(excel.keys[a])
    requires MergeChildren(d, excel)[q].name == Some(excel.keys[b])
    ensures a < b
  {
    MergeNewName(d, excel, p);
    MergeNewName(d, excel, q);
    NamedInOrder(excel.keys, Names(d), MergeChildren(d, excel), |d|, p, q, a, b);
  }

  /** Children `p < q` named by the `p - n`th and `q - n`th names left of `keys` carry names in the order of `keys`. */
  lemma NamedInOrder(keys: seq<string>, drop: set<string>, c: seq<Element>, n: int, p: int, q: int, a: int, b: int)
    requires Distinct(keys) && 0 <= n <= p < q < |c| && 0 <= a < |keys| && 0 <= b < |keys|
    requires q - n < |Without(keys, drop)|
    requires c[p].name == Some(Without(keys, drop)[p - n]) && c[q].name == Some(Without(keys, drop)[q - n])
    requires c[p].name == Some(keys[a]) && c[q].name == Some(keys[b])
    ensures a < b
  {
    WithoutOrder(keys, drop, p - n, q - n, a, b);
  }

  /**
   * Every name of a column whose names and texts are trimmed, as
   * `parserExcel` stores them, ends up on a child under that name with the
   * column's text, escaped.
   */
  lemma MergeCoversColumn(d: seq<Element>, excel: LinkedMap<string>, k: string)
    requires Valid(excel) && k in excel.vals
    requires Trim(k) == k && Trim(excel.vals[k]) == excel.vals[k]
    ensures exists i :: 0 <= i < |MergeChildren(d, excel)| && MergeChildren(d, excel)[i].name.Some?
                        && Trim(MergeChildren(d, excel)[i].name.value) == k
                        && MergeChildren(d, excel)[i].text == EscapeContent(Some(excel.vals[k]))
  {
    if k in Names(d) {
      var i :| 0 <= i < |d| && d[i].name.Some? && Key(d[i]) == k;
      var last := LastUnder(d, i);
      MergeUpdateWins(d, excel, last);
    } else {
      MergeAppendsNew(d, excel, k);
      var p :| |d| <= p < |MergeChildren(d, excel)| && MergeChildren(d, excel)[p].name == Some(k);
      MergeAppendsOnce(d, excel, k, p, p);
    }
  }

  /**
   * A document with no children, as an absent or unreadable file gives,
   * ends with one new child per name of the column, in the column's order.
   */
  lemma MergeIntoEmpty(excel: LinkedMap<string>, p: int)
    requires Valid(excel) && 0 <= p < |excel.keys|
    ensures |MergeChildren([], excel)| == |excel.keys|
    ensures MergeChildren([], excel)[p] == NewElement(excel.keys[p], excel.vals)
  {
    EmptyPartsAt([], excel, p);
  }

  /** All of `MergeIntoEmpty` at once. */
  lemma MergeIntoEmptyAll(excel: LinkedMap<string>)
    requires Valid(excel)
    ensures |MergeChildren([], excel)| == |excel.keys|
    ensures forall p :: 0 <= p < |excel.keys| ==> MergeChildren([], excel)[p] == NewElement(excel.keys[p], excel.vals)
  {
    NewNamesOfEmpty([], excel);
    MergeChildrenLength([], excel);
    forall p | 0 <= p < |excel.keys|
      ensures MergeChildren([], excel)[p] == NewElement(excel.keys[p], excel.vals)
    {
      MergeIntoEmpty(excel, p);
    }
  }

  lemma EmptyPartsAt(d: seq<Element>, excel: LinkedMap<string>, p: int)
    requires Valid(excel) && d == [] && 0 <= p < |excel.keys|
    ensures |MergedInPlace(d, excel, |d|) + NewElements(Without(excel.keys, Names(d)), excel.vals)| == |excel.keys|
    ensures (MergedInPlace(d, excel, |d|) + NewElements(Without(excel.keys, Names(d)), excel.vals))[p]
            == NewElement(excel.keys[p], excel.vals)
  {
    NewNamesOfEmpty(d, excel);
    MergedPartsLength(d, excel);
    AppendedAt(MergedInPlace(d, excel, |d|), excel.keys, excel.vals, p);
  }

  lemma NewNamesOfEmpty(d: seq<Element>, excel: LinkedMap<string>)
    requires d == []
    ensures Without(excel.keys, Names(d)) == excel.keys
  {
    assert Names(d) == {};
    WithoutNothing(excel.keys);
  }

  /** The last child indexed under the name of child `i`. */
  lemma LastUnder(d: seq<Element>, i: int) returns (last: int)
    requires 0 <= i < |d| && d[i].name.Some?
    ensures IsKeyIndex(d, last) && Key(d[last]) == Key(d[i])
  {
    XmlMapKeys(d);
    assert Key(d[i]) in Names(d);
    XmlMapPointsToLast(d, Key(d[i]));
    last := XmlMap(d).vals[Key(d[i])];
  }
}
