/**
 * The message codec's round trip: a well-formed response, once encoded,
 * decodes to the same version, code, request id and groups.
 *
 * The proof goes in two layers. The encoding of a list of attributes is a
 * flat list of entries (tag, name, value), and the decoder's inner loop is
 * AddEntry folded over the entries it reads; pure lemmas show the fold
 * rebuilds the attributes. Separately, layout lemmas show what the decoder
 * reads at each position of an encoded buffer, and the decoding lemmas
 * chain those reads.
 */
module MessageRoundTrip {
  import opened Primitives
  import opened Text
  import opened Tags
  import opened StatusCodes
  import opened Values
  import opened Model
  import opened MessageCodec
  import StringCodec

  /** One wire entry: a value tag, a name (empty for an additional value) and the value. */
  datatype Entry = Entry(tag: ValueTag, name: Bytes, value: Value)

  /** The entries of one attribute: the name goes with the first value only. */
  function EntriesOf(t: ValueTag, name: Bytes, vs: seq<Value>): (r: seq<Entry>)
    ensures |r| == |vs|
    decreases |vs|
  {
    if vs == [] then [] else [Entry(t, name, vs[0])] + EntriesOf(t, [], vs[1..])
  }

  /** The entries of a list of attributes, in wire order. */
  function Entries(attrs: seq<Attribute>): seq<Entry>
    decreases |attrs|
  {
    if attrs == [] then [] else EntriesOf(attrs[0].tag, attrs[0].name, attrs[0].values) + Entries(attrs[1..])
  }

  /** The bytes of one entry on the wire (none when its value cannot be encoded). */
  function Enc(e: Entry): Bytes
  {
    match EncodeEntry(e.tag, e.name, e.value)
    case Ok(b) => b
    case Err(_) => []
  }

  /** The attributes the decoder builds from `es`, one AddEntry per entry. */
  function Apply(attrs: seq<Attribute>, es: seq<Entry>): seq<Attribute>
    decreases |es|
  {
    if es == [] then attrs else Apply(AddEntry(attrs, es[0].tag, es[0].name, Some(es[0].value)), es[1..])
  }

  /** An entry the decoder reads back as written. */
  ghost predicate EntryOk(e: Entry)
  {
    (|e.name| == 0 || !IsBlank(e.name)) && |e.name| <= StringCodec.MAX_LENGTH && WellFormedValue(e.tag, e.value)
  }

  ghost predicate EntriesOk(es: seq<Entry>)
  {
    forall i :: 0 <= i < |es| ==> EntryOk(es[i])
  }

  /** Where the three pieces of an encoded entry sit. */
  lemma EntryLayout(buf: Bytes, p: nat, t: ValueTag, name: Bytes, v: Value)
    requires EncodeEntry(t, name, v).Ok? && At(buf, p, EncodeEntry(t, name, v).value)
    ensures buf[p] == t.Code()
    ensures At(buf, p + 1, StringCodec.Encode(name))
    ensures At(buf, p + 3 + |name|, EncodeValue(v).value)
    ensures |EncodeEntry(t, name, v).value| == 3 + |name| + |EncodeValue(v).value|
  {
    var s := StringCodec.Encode(name);
    var ev := EncodeValue(v).value;
    AtSplit(buf, p, [t.Code()] + s, ev);
    AtSplit(buf, p, [t.Code()], s);
    AtIndex(buf, p, [t.Code()], 0);
  }

  /** The tag and the name of an encoded entry read back. */
  lemma EntryHead(buf: Bytes, p: nat, t: ValueTag, name: Bytes, v: Value)
    requires |name| <= StringCodec.MAX_LENGTH
    requires EncodeEntry(t, name, v).Ok? && At(buf, p, EncodeEntry(t, name, v).value)
    ensures buf[p] == t.Code()
    ensures StringCodec.Decode(buf, p + 1) == Ok((name, p + 3 + |name|))
  {
    EntryLayout(buf, p, t, name, v);
    EntryName(buf, p, name);
  }

  lemma EntryName(buf: Bytes, p: nat, name: Bytes)
    requires |name| <= StringCodec.MAX_LENGTH && At(buf, p + 1, StringCodec.Encode(name))
    ensures StringCodec.Decode(buf, p + 1) == Ok((name, p + 3 + |name|))
  {
    StringCodec.RoundTrip(buf, p + 1, name);
  }

  lemma EntriesOkTail(es: seq<Entry>)
    requires |es| > 0 && EntriesOk(es)
    ensures EntryOk(es[0]) && EntriesOk(es[1..])
  {
    assert forall i :: 0 <= i < |es[1..]| ==> es[1..][i] == es[i + 1];
  }

  lemma {:induction false} ApplyAppend(attrs: seq<Attribute>, a: seq<Entry>, b: seq<Entry>)
    ensures Apply(attrs, a + b) == Apply(Apply(attrs, a), b)
    decreases |a|
  {
    if a == [] {
      assert a + b == b;
    } else {
      assert (a + b)[1..] == a[1..] + b;
      ApplyAppend(AddEntry(attrs, a[0].tag, a[0].name, Some(a[0].value)), a[1..], b);
    }
  }

  /** Nameless entries add their values to the last attribute. */
  lemma {:induction false} ApplyContinuations(attrs: seq<Attribute>, t: ValueTag, vs: seq<Value>)
    requires |attrs| > 0
    ensures Apply(attrs, EntriesOf(t, [], vs))
            == attrs[..|attrs| - 1] + [attrs[|attrs| - 1].(values := attrs[|attrs| - 1].values + vs)]
    decreases |vs|
  {
    var last := attrs[|attrs| - 1];
    if vs == [] {
      assert last.values + vs == last.values;
      assert attrs[..|attrs| - 1] + [last] == attrs;
    } else {
      var mid := AddEntry(attrs, t, [], Some(vs[0]));
      ApplyContinuations(mid, t, vs[1..]);
      assert mid[..|mid| - 1] == attrs[..|attrs| - 1];
      assert last.values + [vs[0]] + vs[1..] == last.values + vs;
    }
  }

  /** The entries of one well-formed attribute rebuild it. */
  lemma ApplyAttribute(attrs: seq<Attribute>, a: Attribute)
    requires |a.name| > 0 && |a.values| > 0
    ensures Apply(attrs, EntriesOf(a.tag, a.name, a.values)) == attrs + [a]
  {
    var mid := attrs + [Attribute(a.tag, a.name, [a.values[0]])];
    assert EntriesOf(a.tag, a.name, a.values)[1..] == EntriesOf(a.tag, [], a.values[1..]);
    assert Apply(attrs, EntriesOf(a.tag, a.name, a.values)) == Apply(mid, EntriesOf(a.tag, [], a.values[1..]));
    ApplyContinuations(mid, a.tag, a.values[1..]);
    assert mid[..|mid| - 1] == attrs;
    assert [a.values[0]] + a.values[1..] == a.values;
  }

  /** The entries of well-formed attributes rebuild them. */
  lemma {:induction false} ApplyAttributes(attrs: seq<Attribute>, as_: seq<Attribute>)
    requires Named(as_)
    ensures Apply(attrs, Entries(as_)) == attrs + as_
    decreases |as_|
  {
    if as_ == [] {
      assert attrs + as_ == attrs;
    } else {
      var a := as_[0];
      ApplyAppend(attrs, EntriesOf(a.tag, a.name, a.values), Entries(as_[1..]));
      ApplyAttribute(attrs, a);
      assert forall i :: 0 <= i < |as_[1..]| ==> as_[1..][i] == as_[i + 1];
      ApplyAttributes(attrs + [a], as_[1..]);
      assert attrs + [a] + as_[1..] == attrs + as_;
    }
  }

  lemma {:induction false} EntriesOfOk(t: ValueTag, name: Bytes, vs: seq<Value>)
    requires (|name| == 0 || !IsBlank(name)) && |name| <= StringCodec.MAX_LENGTH
    requires forall i :: 0 <= i < |vs| ==> WellFormedValue(t, vs[i])
    ensures EntriesOk(EntriesOf(t, name, vs))
    decreases |vs|
  {
    if vs != [] {
      assert forall i :: 0 <= i < |vs[1..]| ==> vs[1..][i] == vs[i + 1];
      EntriesOfOk(t, [], vs[1..]);
      var es := EntriesOf(t, name, vs);
      assert es[1..] == EntriesOf(t, [], vs[1..]);
      assert forall i :: 1 <= i < |es| ==> es[i] == es[1..][i - 1];
    }
  }

  lemma {:induction false} EntriesAllOk(as_: seq<Attribute>)
    requires forall i :: 0 <= i < |as_| ==> WellFormedAttribute(as_[i])
    ensures EntriesOk(Entries(as_))
    decreases |as_|
  {
    if as_ != [] {
      var a := as_[0];
      assert WellFormedAttribute(a);
      EntriesOfOk(a.tag, a.name, a.values);
      assert forall i :: 0 <= i < |as_[1..]| ==> as_[1..][i] == as_[i + 1];
      EntriesAllOk(as_[1..]);
      var x := EntriesOf(a.tag, a.name, a.values);
      var y := Entries(as_[1..]);
      assert forall i :: |x| <= i < |x + y| ==> (x + y)[i] == y[i - |x|];
    }
  }

  /** Attributes whose names are set and whose value lists are not empty. */
  ghost predicate Named(as_: seq<Attribute>)
  {
    forall i :: 0 <= i < |as_| ==> |as_[i].name| > 0 && |as_[i].values| > 0
  }

  lemma NamedAttributes(as_: seq<Attribute>)
    requires forall i :: 0 <= i < |as_| ==> WellFormedAttribute(as_[i])
    ensures Named(as_)
  {
    forall i | 0 <= i < |as_| ensures |as_[i].name| > 0 && |as_[i].values| > 0 {
      assert WellFormedAttribute(as_[i]);
    }
  }

  lemma EncodeGroupsSplit(groups: seq<Group>)
    requires |groups| > 0 && EncodeGroups(groups).Ok?
    ensures EncodeAttributes(groups[0].attributes).Ok? && EncodeGroups(groups[1..]).Ok?
    ensures EncodeGroups(groups).value
            == [groups[0].tag] + EncodeAttributes(groups[0].attributes).value + EncodeGroups(groups[1..]).value
  {
  }

  /** Every value of well-formed attributes can be encoded. */
  lemma AttributesEncode(as_: seq<Attribute>)
    requires forall i :: 0 <= i < |as_| ==> WellFormedAttribute(as_[i])
    ensures EncodeAttributes(as_).Ok?
  {
    forall k, j | 0 <= k < |as_| && 0 <= j < |as_[k].values| ensures EncodeValue(as_[k].values[j]).Ok? {
      assert WellFormedAttribute(as_[k]);
    }
  }

  /** Every value of a well-formed group list can be encoded. */
  lemma WellFormedEncodes(groups: seq<Group>)
    requires WellFormedGroups(groups)
    ensures EncodeGroups(groups).Ok?
  {
    forall i | 0 <= i < |groups| ensures EncodeAttributes(groups[i].attributes).Ok? {
      assert WellFormedGroup(groups[i]);
      AttributesEncode(groups[i].attributes);
    }
  }

  /** The encodings of `xs`, one after another. */
  function Concat<T>(enc: T -> Bytes, xs: seq<T>): Bytes
    decreases |xs|
  {
    if xs == [] then [] else enc(xs[0]) + Concat(enc, xs[1..])
  }

  /** Where each element's bytes start when `xs` is laid out from `p`, and where the last one ends. */
  function Starts<T>(enc: T -> Bytes, p: nat, xs: seq<T>): (r: seq<nat>)
    ensures |r| == |xs| + 1 && r[0] == p
    ensures forall k :: 0 <= k < |xs| ==> r[k + 1] == r[k] + |enc(xs[k])|
    ensures r[|xs|] == p + |Concat(enc, xs)|
    decreases |xs|
  {
    if xs == [] then [p]
    else
      var tail := Starts(enc, p + |enc(xs[0])|, xs[1..]);
      assert forall k :: 1 <= k < |xs| ==> xs[k] == xs[1..][k - 1];
      [p] + tail
  }

  /** Laid out from `p`, each element's bytes lie at its start. */
  lemma {:induction false} Laid<T>(enc: T -> Bytes, buf: Bytes, p: nat, xs: seq<T>)
    requires At(buf, p, Concat(enc, xs))
    ensures forall k :: 0 <= k < |xs| ==> At(buf, Starts(enc, p, xs)[k], enc(xs[k]))
    decreases |xs|
  {
    if xs != [] {
      AtSplit(buf, p, enc(xs[0]), Concat(enc, xs[1..]));
      Laid(enc, buf, p + |enc(xs[0])|, xs[1..]);
      var pos := Starts(enc, p, xs);
      var tail := Starts(enc, p + |enc(xs[0])|, xs[1..]);
      assert pos == [p] + tail;
      forall k | 0 <= k < |xs| ensures At(buf, pos[k], enc(xs[k])) {
        if k > 0 {
          assert pos[k] == tail[k - 1] && xs[k] == xs[1..][k - 1];
        }
      }
    }
  }

  /**
   * The decoder's inner loop as a chain: when each entry's step from
   * `pos[k]` to `pos[k + 1]` adds that entry and leaves `f` unchanged, the
   * whole run from `pos[0]` ends with the fold of all the entries. `f`
   * stands for the rest of the decoding from a position.
   */
  lemma {:induction false} EntriesChained<S>(f: (nat, seq<Attribute>) -> S, pos: seq<nat>, es: seq<Entry>, attrs: seq<Attribute>)
    requires |pos| == |es| + 1
    requires forall k, a :: 0 <= k < |es| ==> f(pos[k], a) == f(pos[k + 1], AddEntry(a, es[k].tag, es[k].name, Some(es[k].value)))
    ensures f(pos[0], attrs) == f(pos[|es|], Apply(attrs, es))
    decreases |es|
  {
    if es != [] {
      var mid := AddEntry(attrs, es[0].tag, es[0].name, Some(es[0].value));
      assert f(pos[0], attrs) == f(pos[1], mid);
      forall k, a | 0 <= k < |es[1..]|
        ensures f(pos[1..][k], a) == f(pos[1..][k + 1], AddEntry(a, es[1..][k].tag, es[1..][k].name, Some(es[1..][k].value)))
      {
        assert pos[1..][k] == pos[k + 1] && pos[1..][k + 1] == pos[k + 2] && es[1..][k] == es[k + 1];
      }
      EntriesChained(f, pos[1..], es[1..], mid);
    }
  }

  /** The outer loop as a chain, as EntriesChained is for the inner one. */
  lemma {:induction false} GroupsChained<S>(f: (nat, seq<Group>) -> S, pos: seq<nat>, gs: seq<Group>, groups: seq<Group>)
    requires |pos| == |gs| + 1
    requires forall k, h :: 0 <= k < |gs| ==> f(pos[k], h) == f(pos[k + 1], h + [gs[k]])
    ensures f(pos[0], groups) == f(pos[|gs|], groups + gs)
    decreases |gs|
  {
    if gs == [] {
      assert groups + gs == groups;
    } else {
      assert f(pos[0], groups) == f(pos[1], groups + [gs[0]]);
      forall k, h | 0 <= k < |gs[1..]| ensures f(pos[1..][k], h) == f(pos[1..][k + 1], h + [gs[1..][k]]) {
        assert pos[1..][k] == pos[k + 1] && pos[1..][k + 1] == pos[k + 2] && gs[1..][k] == gs[k + 1];
      }
      GroupsChained(f, pos[1..], gs[1..], groups + [gs[0]]);
      assert groups + [gs[0]] + gs[1..] == groups + gs;
    }
  }

  lemma {:induction false} ConcatAppend<T>(enc: T -> Bytes, a: seq<T>, b: seq<T>)
    ensures Concat(enc, a + b) == Concat(enc, a) + Concat(enc, b)
    decreases |a|
  {
    if a == [] {
      assert a + b == b;
    } else {
      assert (a + b)[0] == a[0] && (a + b)[1..] == a[1..] + b;
      ConcatAppend(enc, a[1..], b);
    }
  }

  /** The values of one attribute are encoded as its entries. */
  lemma {:induction false} EncodeValuesConcat(t: ValueTag, name: Bytes, vs: seq<Value>)
    requires EncodeValues(t, name, vs).Ok?
    ensures EncodeValues(t, name, vs).value == Concat(Enc, EntriesOf(t, name, vs))
    decreases |vs|
  {
    if vs != [] {
      var es := EntriesOf(t, name, vs);
      assert es[0] == Entry(t, name, vs[0]) && es[1..] == EntriesOf(t, [], vs[1..]);
      EncodeValuesConcat(t, [], vs[1..]);
    }
  }

  /** Attributes are encoded as their entries. */
  lemma {:induction false} EncodeAttributesConcat(as_: seq<Attribute>)
    requires EncodeAttributes(as_).Ok?
    ensures EncodeAttributes(as_).value == Concat(Enc, Entries(as_))
    decreases |as_|
  {
    if as_ != [] {
      var a := as_[0];
      EncodeValuesConcat(a.tag, a.name, a.values);
      EncodeAttributesConcat(as_[1..]);
      ConcatAppend(Enc, EntriesOf(a.tag, a.name, a.values), Entries(as_[1..]));
    }
  }

  /** The bytes of one group: its tag, then its attributes. */
  function GroupBytes(g: Group): Bytes
  {
    match EncodeAttributes(g.attributes)
    case Ok(b) => [g.tag] + b
    case Err(_) => [g.tag]
  }

  lemma {:induction false} EncodeGroupsConcat(gs: seq<Group>)
    requires EncodeGroups(gs).Ok?
    ensures EncodeGroups(gs).value == Concat(GroupBytes, gs)
    decreases |gs|
  {
    if gs != [] {
      EncodeGroupsSplit(gs);
      EncodeGroupsConcat(gs[1..]);
      assert [gs[0].tag] + EncodeAttributes(gs[0].attributes).value + EncodeGroups(gs[1..]).value
          == GroupBytes(gs[0]) + EncodeGroups(gs[1..]).value;
    }
  }

  function Last(pos: seq<nat>): nat
    requires |pos| > 0
  {
    pos[|pos| - 1]
  }

  /** What the decoder reads at `p`: the entry's tag, its name, then its value, ending at `c`. */
  ghost predicate Reads(buf: Bytes, p: nat, e: Entry, c: nat)
  {
    && p < |buf| && buf[p] == e.tag.Code()
    && (|e.name| == 0 || !IsBlank(e.name))
    && StringCodec.Decode(buf, p + 1) == Ok((e.name, p + 3 + |e.name|))
    && DecodeValue(buf, e.tag.Code(), p + 3 + |e.name|) == Ok((Some(e.value), c))
  }

  /** Entry `k` of `es` is read between positions `k` and `k + 1` of `pos`. */
  ghost predicate ReadsAt(buf: Bytes, pos: seq<nat>, es: seq<Entry>, k: int)
  {
    0 <= k < |es| && k + 1 < |pos| && Reads(buf, pos[k], es[k], pos[k + 1])
  }

  /** The tag and the name of an encoded entry read back. */
  lemma EntryReadsHead(buf: Bytes, p: nat, e: Entry)
    requires EntryOk(e) && At(buf, p, Enc(e))
    ensures p < |buf| && buf[p] == e.tag.Code()
    ensures StringCodec.Decode(buf, p + 1) == Ok((e.name, p + 3 + |e.name|))
  {
    assert EncodeEntry(e.tag, e.name, e.value).Ok?;
    EntryHead(buf, p, e.tag, e.name, e.value);
  }

  /** Where the value of an encoded entry sits, and how long the entry is. */
  lemma EntryValueLaid(buf: Bytes, p: nat, e: Entry)
    requires EntryOk(e) && At(buf, p, Enc(e))
    ensures Fits(e.tag, e.value) && Bounded(e.value) && EncodeValue(e.value).Ok?
    ensures At(buf, p + 3 + |e.name|, EncodeValue(e.value).value)
    ensures |Enc(e)| == 3 + |e.name| + |EncodeValue(e.value).value|
  {
    assert EncodeEntry(e.tag, e.name, e.value).Ok?;
    EntryLayout(buf, p, e.tag, e.name, e.value);
  }

  /** The value of an encoded entry reads back, ending where the entry ends. */
  lemma EntryReadsValue(buf: Bytes, p: nat, e: Entry, c: nat)
    requires EntryOk(e) && At(buf, p, Enc(e)) && c == p + |Enc(e)|
    ensures DecodeValue(buf, e.tag.Code(), p + 3 + |e.name|) == Ok((Some(e.value), c))
  {
    var q := p + 3 + |e.name|;
    EntryValueLaid(buf, p, e);
    assert c == q + |EncodeValue(e.value).value|;
    ValueRoundTrip(buf, q, e.tag, e.value);
  }

  /** An encoded entry is read back as itself, ending where its encoding ends. */
  lemma EntryReads(buf: Bytes, p: nat, e: Entry, c: nat)
    requires EntryOk(e) && At(buf, p, Enc(e)) && c == p + |Enc(e)|
    ensures Reads(buf, p, e, c)
  {
    EntryReadsHead(buf, p, e);
    EntryReadsValue(buf, p, e, c);
  }

  /** The rest of the inner loop from the entry whose tag is at `q`. */
  ghost function AttributesFrom(buf: Bytes, q: nat, attrs: seq<Attribute>): Result<(seq<Attribute>, byte, nat)>
  {
    if q < |buf| then DecodeAttributes(buf, buf[q], q + 1, attrs) else Err(OutOfBounds)
  }

  /** A delimiter ends the inner loop at once. */
  lemma AttributesFromDelimiter(buf: Bytes, q: nat, attrs: seq<Attribute>)
    requires q < |buf| && IsDelimiter(buf[q])
    ensures AttributesFrom(buf, q, attrs) == Ok((attrs, buf[q], q + 1))
  {
  }

  /** A single entry is decoded as AddEntry describes, and the decoder moves on to the byte after it. */
  lemma EntryStep(buf: Bytes, p: nat, e: Entry, c: nat, attrs: seq<Attribute>)
    requires Reads(buf, p, e, c) && c < |buf|
    ensures AttributesFrom(buf, p, attrs) == AttributesFrom(buf, c, AddEntry(attrs, e.tag, e.name, Some(e.value)))
  {
    ValueTagCodes(e.tag);
    DecodeAttributesUnfold(buf, buf[p], p + 1, attrs, e.name, p + 3 + |e.name|, Some(e.value), c);
  }

  /** Entries read one after another are decoded one AddEntry at a time. */
  lemma ReadsDecode(buf: Bytes, pos: seq<nat>, es: seq<Entry>, attrs: seq<Attribute>)
    requires |pos| == |es| + 1 && pos[|es|] < |buf|
    requires forall k :: 0 <= k < |es| ==> ReadsAt(buf, pos, es, k)
    ensures AttributesFrom(buf, pos[0], attrs) == AttributesFrom(buf, pos[|es|], Apply(attrs, es))
  {
    var f := (q: nat, a: seq<Attribute>) => AttributesFrom(buf, q, a);
    forall k, a | 0 <= k < |es|
      ensures f(pos[k], a) == f(pos[k + 1], AddEntry(a, es[k].tag, es[k].name, Some(es[k].value)))
    {
      assert ReadsAt(buf, pos, es, k);
      if k + 1 < |es| {
        assert ReadsAt(buf, pos, es, k + 1);
      }
      EntryStep(buf, pos[k], es[k], pos[k + 1], a);
    }
    EntriesChained(f, pos, es, attrs);
  }

  /**
   * The decoder's view of a group: its tag at `p`, then its entries read at
   * `pos`, then a delimiter.
   */
  ghost predicate GroupReads(buf: Bytes, p: nat, g: Group, pos: seq<nat>)
  {
    var es := Entries(g.attributes);
    && p < |buf| && buf[p] == g.tag && g.tag != END_OF_ATTRIBUTES_TAG && Named(g.attributes)
    && |pos| == |es| + 1 && pos[0] == p + 1 && pos[|es|] < |buf| && IsDelimiter(buf[pos[|es|]])
    && forall k :: 0 <= k < |es| ==> ReadsAt(buf, pos, es, k)
  }

  /** The rest of the outer loop from the group whose tag is at `q`. */
  ghost function GroupsFrom(buf: Bytes, q: nat, groups: seq<Group>): Result<seq<Group>>
  {
    if q < |buf| then DecodeGroups(buf, buf[q], q + 1, groups) else Err(OutOfBounds)
  }

  /** A group's tag and attributes are read back in full, up to the delimiter after them. */
  lemma GroupAttributes(buf: Bytes, p: nat, g: Group, pos: seq<nat>)
    requires GroupReads(buf, p, g, pos)
    ensures p < |buf| && buf[p] == g.tag && g.tag != END_OF_ATTRIBUTES_TAG && Last(pos) < |buf|
    ensures AttributesFrom(buf, p + 1, []) == Ok((g.attributes, buf[Last(pos)], Last(pos) + 1))
  {
    var es := Entries(g.attributes);
    var q := Last(pos);
    assert pos[0] == p + 1 && q == pos[|es|] && q < |buf| && IsDelimiter(buf[q]);
    ReadsDecode(buf, pos, es, []);
    ApplyAttributes([], g.attributes);
    assert Apply([], es) == g.attributes;
    AttributesFromDelimiter(buf, q, g.attributes);
  }

  /** A group read up to the delimiter at `q` is appended, and the outer loop moves on to that delimiter. */
  lemma GroupStep(buf: Bytes, p: nat, g: Group, q: nat, groups: seq<Group>)
    requires p < |buf| && buf[p] == g.tag && g.tag != END_OF_ATTRIBUTES_TAG && q < |buf|
    requires AttributesFrom(buf, p + 1, []) == Ok((g.attributes, buf[q], q + 1))
    ensures GroupsFrom(buf, p, groups) == GroupsFrom(buf, q, groups + [g])
  {
    DecodeGroupsUnfold(buf, g.tag, p + 1, groups, g.attributes, buf[q], q + 1);
  }

  /** Where the entries of the group whose tag is at `p` start, and where the last one ends. */
  function EntryStarts(p: nat, g: Group): (r: seq<nat>)
    ensures |r| == |Entries(g.attributes)| + 1 && r[0] == p + 1
  {
    Starts(Enc, p + 1, Entries(g.attributes))
  }

  /** Group `k` of `gs` is read from position `k` of `gpos` up to position `k + 1`. */
  ghost predicate GroupReadAt(buf: Bytes, gpos: seq<nat>, gs: seq<Group>, k: int)
  {
    && 0 <= k < |gs| && k + 1 < |gpos|
    && GroupReads(buf, gpos[k], gs[k], EntryStarts(gpos[k], gs[k]))
    && Last(EntryStarts(gpos[k], gs[k])) == gpos[k + 1]
  }

  /** Groups read one after another, end-of-attributes after the last, are decoded as themselves. */
  lemma GroupsDecode(buf: Bytes, gpos: seq<nat>, gs: seq<Group>)
    requires |gpos| == |gs| + 1 && gpos[|gs|] < |buf| && buf[gpos[|gs|]] == END_OF_ATTRIBUTES_TAG
    requires forall k :: 0 <= k < |gs| ==> GroupReadAt(buf, gpos, gs, k)
    ensures GroupsFrom(buf, gpos[0], []) == Ok(gs)
  {
    var f := (q: nat, h: seq<Group>) => GroupsFrom(buf, q, h);
    forall k, h | 0 <= k < |gs| ensures f(gpos[k], h) == f(gpos[k + 1], h + [gs[k]]) {
      assert GroupReadAt(buf, gpos, gs, k);
      GroupDecodesAt(buf, gpos[k], gs[k], gpos[k + 1], h);
    }
    GroupsChained(f, gpos, gs, []);
    assert [] + gs == gs;
  }

  /** One group read at its start moves the reader to the next group's start. */
  lemma GroupDecodesAt(buf: Bytes, p: nat, g: Group, q: nat, h: seq<Group>)
    requires GroupReads(buf, p, g, EntryStarts(p, g)) && Last(EntryStarts(p, g)) == q
    ensures GroupsFrom(buf, p, h) == GroupsFrom(buf, q, h + [g])
  {
    var pos := EntryStarts(p, g);
    GroupAttributes(buf, p, g, pos);
    assert AttributesFrom(buf, p + 1, []) == Ok((g.attributes, buf[q], q + 1));
    GroupStep(buf, p, g, q, h);
  }

  /** Each entry of encoded well-formed attributes lies at its start and can be read back. */
  lemma AttributesLaid(buf: Bytes, p: nat, as_: seq<Attribute>)
    requires forall i :: 0 <= i < |as_| ==> WellFormedAttribute(as_[i])
    requires EncodeAttributes(as_).Ok? && At(buf, p, EncodeAttributes(as_).value)
    ensures var es := Entries(as_); var pos := Starts(Enc, p, es);
            && pos[|es|] == p + |EncodeAttributes(as_).value|
            && forall k :: 0 <= k < |es| ==> EntryOk(es[k]) && At(buf, pos[k], Enc(es[k]))
  {
    var es := Entries(as_);
    EncodeAttributesConcat(as_);
    EntriesAllOk(as_);
    Laid(Enc, buf, p, es);
  }

  /** Entries that lie at their starts are read back there. */
  lemma EntriesRead(buf: Bytes, pos: seq<nat>, es: seq<Entry>)
    requires |pos| == |es| + 1
    requires forall k :: 0 <= k < |es| ==> pos[k + 1] == pos[k] + |Enc(es[k])|
    requires forall k :: 0 <= k < |es| ==> EntryOk(es[k]) && At(buf, pos[k], Enc(es[k]))
    ensures forall k :: 0 <= k < |es| ==> ReadsAt(buf, pos, es, k)
  {
    forall k | 0 <= k < |es| ensures ReadsAt(buf, pos, es, k) {
      assert pos[k + 1] == pos[k] + |Enc(es[k])|;
      EntryReads(buf, pos[k], es[k], pos[k + 1]);
    }
  }

  lemma GroupTag(buf: Bytes, p: nat, g: Group)
    requires At(buf, p, GroupBytes(g))
    ensures p < |buf| && buf[p] == g.tag
  {
    AtIndex(buf, p, GroupBytes(g), 0);
  }

  /** A group's bytes are its tag, then its encoded attributes. */
  lemma GroupLayout(buf: Bytes, p: nat, g: Group)
    requires WellFormedGroup(g) && At(buf, p, GroupBytes(g))
    ensures EncodeAttributes(g.attributes).Ok?
    ensures p < |buf| && buf[p] == g.tag && At(buf, p + 1, EncodeAttributes(g.attributes).value)
    ensures |GroupBytes(g)| == 1 + |EncodeAttributes(g.attributes).value|
  {
    AttributesEncode(g.attributes);
    var ea := EncodeAttributes(g.attributes).value;
    AtSplit(buf, p, [g.tag], ea);
    AtIndex(buf, p, [g.tag], 0);
  }

  /** An encoded well-formed group followed by a delimiter is read back as itself. */
  lemma GroupRead(buf: Bytes, p: nat, g: Group, q: nat)
    requires WellFormedGroup(g) && At(buf, p, GroupBytes(g))
    requires q == p + |GroupBytes(g)| && q < |buf| && IsDelimiter(buf[q])
    ensures GroupReads(buf, p, g, EntryStarts(p, g)) && Last(EntryStarts(p, g)) == q
  {
    var es := Entries(g.attributes);
    var pos := EntryStarts(p, g);
    GroupLayout(buf, p, g);
    AttributesLaid(buf, p + 1, g.attributes);
    assert pos[|es|] == q;
    NamedAttributes(g.attributes);
    EntriesRead(buf, pos, es);
  }

  /** Each encoded group lies at its start, with end-of-attributes after the last. */
  lemma GroupsLaid(buf: Bytes, p: nat, gs: seq<Group>)
    requires EncodeGroups(gs).Ok? && At(buf, p, EncodeGroups(gs).value + [END_OF_ATTRIBUTES_TAG])
    ensures var pos := Starts(GroupBytes, p, gs);
            && pos[|gs|] < |buf| && buf[pos[|gs|]] == END_OF_ATTRIBUTES_TAG
            && forall k :: 0 <= k < |gs| ==> At(buf, pos[k], GroupBytes(gs[k]))
  {
    EncodeGroupsConcat(gs);
    var body := EncodeGroups(gs).value;
    AtSplit(buf, p, body, [END_OF_ATTRIBUTES_TAG]);
    AtIndex(buf, p + |body|, [END_OF_ATTRIBUTES_TAG], 0);
    Laid(GroupBytes, buf, p, gs);
  }

  /** After each group of a well-formed list comes a delimiter: the next group's tag or end-of-attributes. */
  lemma GroupsDelimited(buf: Bytes, pos: seq<nat>, gs: seq<Group>)
    requires WellFormedGroups(gs) && |pos| == |gs| + 1
    requires pos[|gs|] < |buf| && buf[pos[|gs|]] == END_OF_ATTRIBUTES_TAG
    requires forall k :: 0 <= k < |gs| ==> At(buf, pos[k], GroupBytes(gs[k]))
    ensures forall j :: 1 <= j <= |gs| ==> pos[j] < |buf| && IsDelimiter(buf[pos[j]])
  {
    forall j | 1 <= j < |gs| ensures pos[j] < |buf| && IsDelimiter(buf[pos[j]]) {
      assert WellFormedGroup(gs[j]);
      GroupTag(buf, pos[j], gs[j]);
    }
  }

  /** Encoded well-formed groups followed by end-of-attributes are decoded as themselves. */
  lemma GroupsRoundTrip(buf: Bytes, p: nat, gs: seq<Group>)
    requires WellFormedGroups(gs) && EncodeGroups(gs).Ok?
    requires At(buf, p, EncodeGroups(gs).value + [END_OF_ATTRIBUTES_TAG])
    ensures GroupsFrom(buf, p, []) == Ok(gs)
  {
    GroupsLaid(buf, p, gs);
    var gpos := Starts(GroupBytes, p, gs);
    GroupsDelimited(buf, gpos, gs);
    forall k | 0 <= k < |gs|
      ensures GroupReadAt(buf, gpos, gs, k)
    {
      assert WellFormedGroup(gs[k]) && gpos[k + 1] == gpos[k] + |GroupBytes(gs[k])|;
      assert gpos[k + 1] < |buf| && IsDelimiter(buf[gpos[k + 1]]);
      GroupRead(buf, gpos[k], gs[k], gpos[k + 1]);
    }
    GroupsDecode(buf, gpos, gs);
  }

  /**
   * IppDecoder.Decode inverts IppEncoder.Encode on well-formed responses: the
   * status code comes back in the operation field, the version truncated to
   * a byte, and the groups unchanged.
   */
  lemma MessageRoundTrip(resp: Response)
    requires WellFormedGroups(resp.groups)
    ensures EncodeResponse(resp).Ok?
    ensures Decode(EncodeResponse(resp).value)
            == Ok(Request(resp.major % 0x100, resp.minor % 0x100, resp.status.Code(), resp.requestId, resp.groups))
  {
    WellFormedEncodes(resp.groups);
    StatusCodeFacts(resp.status);
    var header := EncodeHeader(resp.major, resp.minor, resp.status.Code(), resp.requestId);
    var body := EncodeGroups(resp.groups).value;
    var buf := EncodeResponse(resp).value;
    assert buf == header + (body + [END_OF_ATTRIBUTES_TAG]);
    assert At(buf, 8, body + [END_OF_ATTRIBUTES_TAG]) by {
      assert buf[8..8 + |body| + 1] == body + [END_OF_ATTRIBUTES_TAG];
    }
    GroupsRoundTrip(buf, 8, resp.groups);
  }
}
