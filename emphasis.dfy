/** The selection and emphasis rules of the marker engine on plain values:
    which marker is selected and which markers are drawn emphasised. */
module Emphasis {
  import opened Points

  /** `selected` is the current selection, `lit` the emphasised markers. */
  datatype Highlight<K> = Highlight(selected: Option<K>, lit: set<K>)

  /** No marker is emphasised except the selected one. */
  ghost predicate AtMostOne<K>(h: Highlight<K>)
  {
    forall x | x in h.lit :: h.selected == Some(x)
  }

  /** Selecting `k`: a different previous selection is de-emphasised first,
      then `k` becomes the selection and is emphasised. */
  function Select<K(==)>(h: Highlight<K>, k: K): (r: Highlight<K>)
    ensures r.selected == Some(k) && k in r.lit
    ensures forall x | x in h.lit + r.lit && x != k :: x in r.lit <==> x in h.lit && h.selected != Some(x)
  {
    var cleared := if h.selected.Some? && h.selected.value != k then h.lit - {h.selected.value} else h.lit;
    Highlight(Some(k), cleared + {k})
  }

  /** One selection from a state with at most one emphasised marker leaves
      exactly the new selection emphasised. */
  lemma SelectKeepsAtMostOne<K>(h: Highlight<K>, k: K)
    requires AtMostOne(h)
    ensures Select(h, k) == Highlight(Some(k), {k})
  {
    var r := Select(h, k);
    assert r.lit == {k};
  }

  /** Selecting the already-selected marker again changes nothing. */
  lemma ReselectIsIdempotent<K>(h: Highlight<K>, k: K)
    ensures Select(Select(h, k), k) == Select(h, k)
  {
  }

  /** The selections `ks`, in order. */
  function SelectAll<K(==)>(h: Highlight<K>, ks: seq<K>): Highlight<K>
    decreases |ks|
  {
    if ks == [] then h else SelectAll(Select(h, ks[0]), ks[1..])
  }

  /** After any sequence of selections at most one marker is emphasised, and
      after a non-empty one it is exactly the last marker selected. */
  lemma {:induction false} SelectionsLeaveOneLit<K>(h: Highlight<K>, ks: seq<K>)
    requires AtMostOne(h)
    ensures AtMostOne(SelectAll(h, ks))
    ensures ks != [] ==> SelectAll(h, ks) == Highlight(Some(ks[|ks| - 1]), {ks[|ks| - 1]})
    decreases |ks|
  {
    if ks != [] {
      SelectKeepsAtMostOne(h, ks[0]);
      var h' := Select(h, ks[0]);
      assert AtMostOne(h');
      SelectionsLeaveOneLit(h', ks[1..]);
      if |ks| > 1 {
        assert ks[1..][|ks[1..]| - 1] == ks[|ks| - 1];
      }
    }
  }

  /** Starting from no selection, as when the page loads. */
  lemma FromNothingSelected<K>(ks: seq<K>)
    ensures AtMostOne(SelectAll(Highlight(None, {}), ks))
    ensures ks == [] ==> SelectAll(Highlight(None, {}), ks).lit == {}
  {
    SelectionsLeaveOneLit(Highlight(None, {}), ks);
  }
}
