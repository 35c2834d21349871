/** Maps that do not come back as they were: an entry without content keeps the content of the one
    before. */
module KeyedContainers {
  import opened Bytes
  import opened Status
  import opened Schema
  import opened Encoding
  import opened Decoding
  import opened Restoring
  import opened RoundTrip

  /** An entry: a key of a bytes, and perhaps b bytes. */
  function EntryType(a: nat, b: nat): (t: Ty)
    ensures WellFormed(t)
  {
    var o := Optional(Fixed(b));
    assert WellFormed(Fixed(b)) && WellFormed(o) && WellFormed(Fixed(a));
    Struct(false, [Fixed(a), o])
  }

  function Entry(key: bytes, content: Val): Val {
    Items([Blob(key), content])
  }

  predicate IsContent(content: Val, b: nat) {
    content.Null? || (content.Some? && content.value.Blob? && |content.value.bytes| == b)
  }

  lemma {:induction false} EntryTyped(key: bytes, content: Val, b: nat)
    requires IsContent(content, b)
    ensures HasType(EntryType(|key|, b), Entry(key, content))
  {
    assert content.Some? ==> HasType(Fixed(b), content.value);
    assert HasType(Optional(Fixed(b)), content);
  }

  /** Once moved from, an entry still has its content. */
  lemma {:induction false} EntryMoved(key: bytes, content: Val, b: nat)
    requires IsContent(content, b)
    ensures HasType(EntryType(|key|, b), Entry(key, content))
    ensures Moved(EntryType(|key|, b), Entry(key, content)) == Entry(key, content)
  {
    EntryTyped(key, content, b);
    var fs, vs := [Fixed(|key|), Optional(Fixed(b))], [Blob(key), content];
    assert HasTypes(fs, vs);
    assert fs[1..] == [Optional(Fixed(b))] && vs[1..] == [content];
    assert Moved(Fixed(|key|), Blob(key)) == Blob(key);
    OptionalMoved(content, b);
    assert MovedFields(fs[1..], vs[1..]) == [content] + MovedFields(fs[1..][1..], vs[1..][1..]);
    assert MovedFields(fs, vs) == [Blob(key)] + MovedFields(fs[1..], vs[1..]);
    assert MovedFields(fs, vs) == vs;
  }

  lemma {:induction false} OptionalMoved(content: Val, b: nat)
    requires IsContent(content, b)
    ensures HasType(Optional(Fixed(b)), content) && Moved(Optional(Fixed(b)), content) == content
  {
    if content.Some? { assert HasType(Fixed(b), content.value) && Moved(Fixed(b), content.value) == content.value; }
  }

  /** What an entry is written as. */
  function EntryBytes(key: bytes, content: Val): bytes {
    key + (if content.Some? && content.value.Blob? then [1] + content.value.bytes else [0])
  }

  /** Reading an entry over another one: the key is new, and so is a content that is there. */
  lemma {:induction false} EntryOver(key: bytes, content: Val, b: nat, oldKey: bytes, oldContent: Val, c: Context, pos: nat)
    requires |oldKey| == |key| && IsContent(content, b) && IsContent(oldContent, b)
    requires At(c.data, pos, EntryBytes(key, content))
    ensures HasType(EntryType(|key|, b), Entry(oldKey, oldContent))
    ensures Decode(EntryType(|key|, b), Entry(oldKey, oldContent), Plain, c, pos)
            == Outcome(Ok, Entry(key, if content.Some? then content else oldContent), pos + |EntryBytes(key, content)|, false)
  {
    hide Decode, DecodeFields, HasType, WellFormed;
    EntryTyped(oldKey, oldContent, b);
    var fs, was := [Fixed(|key|), Optional(Fixed(b))], [Blob(oldKey), oldContent];
    var rest := if content.Some? then [1] + content.value.bytes else [0];
    AtConcat(c.data, pos, key, rest);
    assert fs[1..] == [Optional(Fixed(b))] && was[1..] == [oldContent];
    EntryParts(fs, was, EntryType(|key|, b), Entry(oldKey, oldContent));
    assert WellFormed(fs[0]) && WellFormed(fs[1]) && HasType(fs[0], was[0]) && HasType(fs[1], was[1]);
    KeyRead(key, oldKey, c, pos);
    ContentOver(content, b, oldContent, c, pos + |key|);
    LastField(Optional(Fixed(b)), oldContent, c, pos + |key|);
    DecodeFieldsFirst(false, fs, was, Plain, c, pos);
    EntryUnfolds(fs, was, c, pos);
    var now := if content.Some? then content else oldContent;
    assert [Blob(key)] + [now] == [Blob(key), now];
    assert |EntryBytes(key, content)| == |key| + 1 + (if content.Some? then b else 0);
    assert EntryType(|key|, b) == Struct(false, fs);
  }

  lemma {:induction false} EntryParts(fs: seq<Ty>, was: seq<Val>, t: Ty, v: Val)
    requires t == Struct(false, fs) && v == Items(was) && WellFormed(t) && HasType(t, v)
    ensures AllWellFormed(fs) && HasTypes(fs, was)
  {
  }

  lemma {:induction false} KeyRead(key: bytes, oldKey: bytes, c: Context, pos: nat)
    requires |oldKey| == |key| && At(c.data, pos, key)
    ensures Decode(Fixed(|key|), Blob(oldKey), Plain, c, pos) == Outcome(Ok, Blob(key), pos + |key|, false)
  {
  }

  lemma {:induction false} ContentOver(content: Val, b: nat, oldContent: Val, c: Context, pos: nat)
    requires IsContent(content, b) && IsContent(oldContent, b)
    requires At(c.data, pos, if content.Some? then [1] + content.value.bytes else [0])
    ensures HasType(Optional(Fixed(b)), oldContent)
    ensures Decode(Optional(Fixed(b)), oldContent, Plain, c, pos)
            == Outcome(Ok, if content.Some? then content else oldContent, pos + 1 + (if content.Some? then b else 0), false)
  {
    OptionalMoved(oldContent, b);
    assert WellFormed(Fixed(b));
    if content.Some? {
      AtConcat(c.data, pos, [1], content.value.bytes);
      assert c.data[pos] == c.data[pos..pos + 1][0];
      assert Decode(Fixed(b), Default(Fixed(b)), Plain, c, pos + 1) == Outcome(Ok, content.value, pos + 1 + b, false);
    } else {
      assert c.data[pos] == c.data[pos..pos + 1][0];
    }
  }

  lemma {:induction false} LastField(t: Ty, item: Val, c: Context, pos: nat)
    requires WellFormed(t) && HasType(t, item) && pos <= |c.data| && Decode(t, item, Plain, c, pos).code == Ok
    ensures var h := Decode(t, item, Plain, c, pos);
            DecodeFields(false, [t], [item], Plain, c, pos) == Outcomes(Ok, [h.item], h.pos, h.missing)
  {
    hide Decode, HasType, WellFormed;
    DecodeFieldsFirst(false, [t], [item], Plain, c, pos);
    assert [t][1..] == [] && [item][1..] == [];
  }

  lemma {:induction false} EntryUnfolds(fs: seq<Ty>, was: seq<Val>, c: Context, pos: nat)
    requires AllWellFormed(fs) && HasTypes(fs, was) && pos <= |c.data|
    requires WellFormed(Struct(false, fs)) && HasType(Struct(false, fs), Items(was))
    ensures var r := DecodeFields(false, fs, was, Plain, c, pos);
            Decode(Struct(false, fs), Items(was), Plain, c, pos) == Outcome(r.code, Items(r.items), r.pos, r.missing)
  {
    hide DecodeFields;
  }

  lemma {:induction false} EntryEncoded(key: bytes, content: Val, b: nat, w: nat)
    requires IsContent(content, b)
    ensures HasType(EntryType(|key|, b), Entry(key, content))
    ensures Encode(EntryType(|key|, b), Entry(key, content), Plain, w) == EntryBytes(key, content)
  {
    EntryTyped(key, content, b);
    var fs, vs := [Fixed(|key|), Optional(Fixed(b))], [Blob(key), content];
    assert WellFormed(Fixed(b)) && WellFormed(Fixed(|key|)) && WellFormed(Optional(Fixed(b)));
    OptionalMoved(content, b);
    assert fs[1..] == [Optional(Fixed(b))] && vs[1..] == [content] && fs[1..][1..] == [];
    assert content.Some? ==> Encode(Fixed(b), content.value, Plain, w) == content.value.bytes;
    assert EncodeFields(false, fs[1..], vs[1..], Plain, w)
           == Encode(Optional(Fixed(b)), content, Plain, w) + EncodeFields(false, fs[1..][1..], vs[1..][1..], Plain, w);
    assert EncodeFields(false, fs, vs, Plain, w)
           == Encode(Fixed(|key|), Blob(key), Plain, w) + EncodeFields(false, fs[1..], vs[1..], Plain, w);
  }

  /** Two entries, the second one without content. */
  function TwoEntries(key1: bytes, key2: bytes, x: bytes): (v: Val)
    requires |key1| == |key2|
    ensures forall shape :: HasType(Container(shape, EntryType(|key1|, |x|)), v)
  {
    EntryTyped(key1, Some(Blob(x)), |x|);
    EntryTyped(key2, Null, |x|);
    Items([Entry(key1, Some(Blob(x))), Entry(key2, Null)])
  }

  lemma {:induction false} TwoEncoded(shape: Shape, key1: bytes, key2: bytes, x: bytes, w: nat)
    requires |key1| == |key2|
    ensures WellFormed(Container(shape, EntryType(|key1|, |x|)))
    ensures Encode(Container(shape, EntryType(|key1|, |x|)), TwoEntries(key1, key2, x), Plain, w)
            == LE(w, 2) + (EntryBytes(key1, Some(Blob(x))) + EntryBytes(key2, Null))
  {
    hide LE, EntryType, EntryBytes, HasType;
    var t := EntryType(|key1|, |x|);
    EntryEncoded(key1, Some(Blob(x)), |x|, w);
    EntryEncoded(key2, Null, |x|, w);
    var vs := [Entry(key1, Some(Blob(x))), Entry(key2, Null)];
    assert vs[1..] == [Entry(key2, Null)] && vs[1..][1..] == [];
    assert AllHaveType(t, vs) by { assert HasType(t, vs[0]) && HasType(t, vs[1]); }
    assert EncodeElems(t, vs[1..], Plain, w) == Encode(t, vs[1], Plain, w) + EncodeElems(t, vs[1..][1..], Plain, w);
    assert EncodeElems(t, vs, Plain, w) == Encode(t, vs[0], Plain, w) + EncodeElems(t, vs[1..], Plain, w);
  }

  /** Of a map with two entries, the second one without content, the second one gets the content
      of the first; in a list of pairs it has none, as written. */
  lemma {:induction false} LastContentStays(shape: Shape, key1: bytes, key2: bytes, x: bytes, c: Context, pos: nat)
    requires |key1| == |key2| && c.w > 0 && WellFormed(Container(shape, EntryType(|key1|, |x|)))
    requires At(c.data, pos, Encode(Container(shape, EntryType(|key1|, |x|)), TwoEntries(key1, key2, x), Plain, c.w))
    ensures var o := DecodeContainer(shape, EntryType(|key1|, |x|), Items([]), c, pos);
            var second := Entry(key2, if shape.Keyed? then Some(Blob(x)) else Null);
            o.code == Ok && o.item == Items([Entry(key1, Some(Blob(x))), second])
  {
    hide LE, FromLE, Decode, EntryType, EntryBytes, Default, Moved, Encode, HasType, WellFormed;
    var t, b := EntryType(|key1|, |x|), |x|;
    var first, second := EntryBytes(key1, Some(Blob(x))), EntryBytes(key2, Null);
    TwoEncoded(shape, key1, key2, x, c.w);
    AtConcat(c.data, pos, LE(c.w, 2), first + second);
    AtConcat(c.data, pos + c.w, first, second);
    TwoFits(c.w);
    LERoundTrip(c.w, 2);
    EntryDefault(|key1|, b);
    var zero := seq(|key1|, _ => 0);
    EntryOver(key1, Some(Blob(x)), b, zero, Null, c, pos + c.w);
    EntryMoved(key1, Some(Blob(x)), b);
    var was := Next(shape, t, Entry(key1, Some(Blob(x))));
    if shape.Keyed? {
      EntryOver(key2, Null, b, key1, Some(Blob(x)), c, pos + c.w + |first|);
    } else {
      EntryOver(key2, Null, b, zero, Null, c, pos + c.w + |first|);
    }
    DecodeNewFirst(shape, t, Default(t), 2, c, pos + c.w);
    DecodeNewFirst(shape, t, was, 1, c, pos + c.w + |first|);
    NoMore(shape, t, Next(shape, t, Decode(t, was, Plain, c, pos + c.w + |first|).item), c, pos + c.w + |first| + |second|);
    EntryNotFixed(|key1|, b);
  }

  lemma {:induction false} EntryNotFixed(a: nat, b: nat)
    ensures EntryType(a, b).Struct?
  {
  }

  lemma {:induction false} NoMore(shape: Shape, t: Ty, item: Val, c: Context, pos: nat)
    requires WellFormed(t) && HasType(t, item) && pos <= |c.data|
    ensures DecodeNew(shape, t, item, 0, c, pos) == Outcomes(Ok, [], pos, false)
  {
    hide Decode, HasType, WellFormed;
  }

  lemma {:induction false} TwoFits(w: nat)
    requires w > 0
    ensures 2 < Span(w)
  {
    assert Span(w) == 256 * Span(w - 1) && Span(w - 1) > 0;
  }

  lemma {:induction false} EntryDefault(a: nat, b: nat)
    ensures Default(EntryType(a, b)) == Entry(seq(a, _ => 0), Null)
  {
    var fs := [Fixed(a), Optional(Fixed(b))];
    assert WellFormed(Fixed(a)) && WellFormed(Fixed(b)) && WellFormed(Optional(Fixed(b)));
    assert fs[1..] == [Optional(Fixed(b))] && fs[1..][1..] == [];
    assert Defaults(fs[1..]) == [Null] + Defaults(fs[1..][1..]);
    assert Defaults(fs) == [Blob(seq(a, _ => 0))] + Defaults(fs[1..]);
  }
}
