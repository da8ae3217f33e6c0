/** `render_features`: the recursive rendering of a dataset schema into plain
    values. Dictionaries keep their keys, a class label becomes its list of
    names, a value type becomes its dtype, a sequence becomes a one-entry
    dictionary under the key `[]`, and anything else is returned as it is. */
module Features {

  /** The schema nodes the renderer distinguishes. `Other` stands for every
      feature kind it passes through untouched. */
  datatype Feature =
    | Dict(entries: seq<(string, Feature)>)
    | ClassLabel(names: seq<string>)
    | Value(dtype: string)
    | Sequence(feature: Feature)
    | Other(repr: string)

  /** What rendering produces: nested dictionaries, a list of names, a dtype
      string, or the original object. */
  datatype Rendered =
    | RDict(items: seq<(string, Rendered)>)
    | RNames(labels: seq<string>)
    | RDType(name: string)
    | RKept(original: Feature)

  /** The key a sequence is rendered under. */
  const SequenceKey: string := "[]"

  function Render(f: Feature): (r: Rendered)
    decreases f
    ensures f.Dict? ==>
      && r.RDict? && |r.items| == |f.entries|
      && forall i :: 0 <= i < |f.entries| ==> r.items[i].0 == f.entries[i].0
    ensures f.ClassLabel? ==> r == RNames(f.names)
    ensures f.Value? ==> r == RDType(f.dtype)
    ensures f.Sequence? ==> r.RDict? && |r.items| == 1 && r.items[0].0 == SequenceKey
    ensures f.Other? ==> r == RKept(f)
  {
    match f
    case Dict(entries) => RDict(RenderEntries(entries, f))
    case ClassLabel(names) => RNames(names)
    case Value(dtype) => RDType(dtype)
    case Sequence(inner) => RDict([(SequenceKey, Render(inner))])
    case Other(_) => RKept(f)
  }

  /** The dictionary comprehension `{k: render_features(v) for k, v in features.items()}`. */
  function RenderEntries(entries: seq<(string, Feature)>, ghost parent: Feature): (r: seq<(string, Rendered)>)
    requires parent.Dict? && entries == parent.entries
    decreases parent, 0
    ensures |r| == |entries|
    ensures forall i :: 0 <= i < |entries| ==> r[i] == (entries[i].0, Render(entries[i].1))
  {
    seq(|entries|, i requires 0 <= i < |entries| =>
      assert entries[i] in parent.entries;
      (entries[i].0, Render(entries[i].1)))
  }

  /** A dictionary whose only key is `[]`: the shape a sequence renders to. */
  predicate LooksLikeSequence<T>(entries: seq<(string, T)>)
  {
    |entries| == 1 && entries[0].0 == SequenceKey
  }

  /** Reads a rendered value back as a schema, taking every one-entry `[]`
      dictionary for a sequence. */
  function Unrender(r: Rendered): (f: Feature)
    decreases r
    ensures r.RNames? ==> f == ClassLabel(r.labels)
    ensures r.RDType? ==> f == Value(r.name)
    ensures r.RKept? ==> f == r.original
    ensures r.RDict? ==> (f.Sequence? <==> LooksLikeSequence(r.items))
  {
    match r
    case RDict(items) =>
      if LooksLikeSequence(items) then
        assert items[0] in items;
        Sequence(Unrender(items[0].1))
      else Dict(UnrenderItems(items, r))
    case RNames(labels) => ClassLabel(labels)
    case RDType(name) => Value(name)
    case RKept(original) => original
  }

  function UnrenderItems(items: seq<(string, Rendered)>, ghost parent: Rendered): (r: seq<(string, Feature)>)
    requires parent.RDict? && items == parent.items
    decreases parent, 0
    ensures |r| == |items|
    ensures forall i :: 0 <= i < |items| ==> r[i] == (items[i].0, Unrender(items[i].1))
  {
    seq(|items|, i requires 0 <= i < |items| =>
      assert items[i] in parent.items;
      (items[i].0, Unrender(items[i].1)))
  }

  /** A schema with no dictionary that could be mistaken for a sequence. */
  predicate Unambiguous(f: Feature)
    decreases f
  {
    match f
    case Dict(entries) =>
      !LooksLikeSequence(entries)
      && forall i :: 0 <= i < |entries| ==> (assert entries[i] in entries; Unambiguous(entries[i].1))
    case Sequence(inner) => Unambiguous(inner)
    case _ => true
  }

  /** A rendered value whose kept originals are only the pass-through kinds. */
  predicate WellFormed(r: Rendered)
    decreases r
  {
    match r
    case RDict(items) => forall i :: 0 <= i < |items| ==> (assert items[i] in items; WellFormed(items[i].1))
    case RKept(original) => original.Other?
    case _ => true
  }

  /** Rendering an unambiguous schema loses nothing: it can be read back. */
  lemma {:induction false} RenderRoundTrip(f: Feature)
    requires Unambiguous(f)
    decreases f
    ensures Unrender(Render(f)) == f
  {
    match f
    case Dict(entries) =>
      var items := Render(f).items;
      forall i | 0 <= i < |entries|
        ensures Unrender(items[i].1) == entries[i].1
      {
        assert entries[i] in entries;
        RenderRoundTrip(entries[i].1);
      }
      assert UnrenderItems(items, Render(f)) == entries;
    case Sequence(inner) =>
      RenderRoundTrip(inner);
    case _ =>
  }

  /** Every well-formed rendered value is the rendering of what it reads back as. */
  lemma {:induction false} UnrenderRoundTrip(r: Rendered)
    requires WellFormed(r)
    decreases r
    ensures Render(Unrender(r)) == r
  {
    match r
    case RDict(items) =>
      if LooksLikeSequence(items) {
        assert items[0] in items;
        UnrenderRoundTrip(items[0].1);
        assert items == [(SequenceKey, items[0].1)];
      } else {
        var f := Unrender(r);
        forall i | 0 <= i < |items|
          ensures Render(f.entries[i].1) == items[i].1
        {
          assert items[i] in items;
          UnrenderRoundTrip(items[i].1);
        }
        assert RenderEntries(f.entries, f) == items;
      }
    case _ =>
  }

  /** Rendering is not injective: a sequence and a dictionary whose only key
      is `[]` render identically. */
  lemma SequenceCollidesWithDict(inner: Feature)
    ensures Sequence(inner) != Dict([(SequenceKey, inner)])
    ensures Render(Sequence(inner)) == Render(Dict([(SequenceKey, inner)]))
  {
    var d := Dict([(SequenceKey, inner)]);
    assert RenderEntries(d.entries, d) == [(SequenceKey, Render(inner))];
  }

  /** Every rendering is well-formed. */
  lemma {:induction false} RenderWellFormed(f: Feature)
    decreases f
    ensures WellFormed(Render(f))
  {
    match f
    case Dict(entries) =>
      var items := Render(f).items;
      forall i | 0 <= i < |items|
        ensures WellFormed(items[i].1)
      {
        assert entries[i] in entries;
        RenderWellFormed(entries[i].1);
      }
    case Sequence(inner) =>
      RenderWellFormed(inner);
    case _ =>
  }
}
