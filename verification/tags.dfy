/** parse_tags: a file's metadata map becomes an ordered list of
    (tag, frequency) entries. The JSON decoder is a parameter (json.loads is
    not part of this model), and so is Python's str() of a non-string JSON
    value, which the network entry formats. */
module TagParser {
  import opened JsonValue
  import opened PyText

  /** One {"tag": ..., "frequency": ...} record. Both fields hold whatever
      the metadata held; the "type" marker of the trailing records is dropped,
      as nothing reads it. */
  datatype Entry = Entry(tag: Json, freq: Json)

  type Metadata = map<string, string>
  type Decoder = string -> Decoded
  type Render = Json -> string

  const FrequencyKeys: seq<string> := ["ss_tag_frequency", "ss_tag_frequency_0", "tag_frequency", "tags"]
  const CharacterKey := "ss_character_tags"
  const DatasetKey := "ss_dataset_name"
  const NetworkKey := "ss_network_args"
  const One := JInt(1)

  // ---------------------------------------------------------------------
  // The entries, as functions of the metadata
  // ---------------------------------------------------------------------

  /** The entries of one nested {tag: freq} dict; its outer key is dropped. */
  function InnerEntries(ms: seq<(string, Json)>): (r: seq<Entry>)
    ensures |r| == |ms|
    ensures forall i :: 0 <= i < |ms| ==> r[i] == Entry(JStr(ms[i].0), ms[i].1)
  {
    if |ms| == 0 then []
    else InnerEntries(ms[..|ms| - 1]) + [Entry(JStr(ms[|ms| - 1].0), ms[|ms| - 1].1)]
  }

  /** One member of a dict-shaped value. */
  function DictMember(m: (string, Json)): seq<Entry> {
    if m.1.JObj? then InnerEntries(m.1.members) else [Entry(JStr(m.0), m.1)]
  }

  function DictEntries(ms: seq<(string, Json)>): seq<Entry> {
    if |ms| == 0 then []
    else DictEntries(ms[..|ms| - 1]) + DictMember(ms[|ms| - 1])
  }

  /** One item of a list-shaped value: a string, or a dict with "name". */
  function ListItem(item: Json): seq<Entry> {
    match item
    case JStr(_) => [Entry(item, One)]
    case JObj(ms) =>
      (match Lookup(ms, "name")
       case Some(name) => [Entry(name, Lookup(ms, "frequency").GetOr(One))]
       case None => [])
    case _ => []
  }

  function ListEntries(items: seq<Json>): seq<Entry> {
    if |items| == 0 then []
    else ListEntries(items[..|items| - 1]) + ListItem(items[|items| - 1])
  }

  /** What one recognised key contributes, given its raw string and how it
      decoded: the raw string alone when it does not decode, nothing when it
      decodes to neither a dict nor a list, and at most one entry per item of
      a list. */
  function KeyEntries(d: Decoded, raw: string): (r: seq<Entry>)
    ensures d.Undecodable? ==> r == [Entry(JStr(raw), One)]
    ensures d.Value? && !d.json.JObj? && !d.json.JList? ==> r == []
    ensures d.Value? && d.json.JList? ==> |r| <= |d.json.items|
  {
    match d
    case Undecodable => [Entry(JStr(raw), One)]
    case Value(JObj(ms)) => DictEntries(ms)
    case Value(JList(items)) => ListEntriesAtMostOne(items); ListEntries(items)
    case Value(_) => []
  }

  function KeyPart(md: Metadata, decode: Decoder, key: string): seq<Entry> {
    if key in md then KeyEntries(decode(md[key]), md[key]) else []
  }

  /** None of `keys` is in the metadata, so they contribute nothing. */
  lemma {:induction false} NoKeysNoEntries(md: Metadata, decode: Decoder, keys: seq<string>)
    requires forall i :: 0 <= i < |keys| ==> keys[i] !in md
    ensures FrequencyEntries(md, decode, keys) == []
    decreases |keys|
  {
    if |keys| > 0 {
      NoKeysNoEntries(md, decode, keys[..|keys| - 1]);
    }
  }

  /** The frequency tags, key after key in the order of `keys`. */
  function FrequencyEntries(md: Metadata, decode: Decoder, keys: seq<string>): seq<Entry> {
    if |keys| == 0 then []
    else FrequencyEntries(md, decode, keys[..|keys| - 1]) + KeyPart(md, decode, keys[|keys| - 1])
  }

  function OnePerItem(items: seq<Json>): (r: seq<Entry>)
    ensures |r| == |items|
    ensures forall i :: 0 <= i < |items| ==> r[i] == Entry(items[i], One)
  {
    if |items| == 0 then []
    else OnePerItem(items[..|items| - 1]) + [Entry(items[|items| - 1], One)]
  }

  /** `ss_character_tags` is present and decodes to a list. */
  predicate CharacterList(md: Metadata, decode: Decoder) {
    CharacterKey in md && decode(md[CharacterKey]).Value? && decode(md[CharacterKey]).json.JList?
  }

  /** The character tags: one entry of frequency 1 per item of the decoded
      list, in order; nothing when the value is absent, does not decode or is
      not a list. */
  function CharacterEntries(md: Metadata, decode: Decoder): (r: seq<Entry>)
    ensures CharacterList(md, decode) ==>
              var items := decode(md[CharacterKey]).json.items;
              |r| == |items| && forall i :: 0 <= i < |items| ==> r[i] == Entry(items[i], One)
    ensures !CharacterList(md, decode) ==> r == []
  {
    if CharacterList(md, decode) then OnePerItem(decode(md[CharacterKey]).json.items) else []
  }

  /** The dataset entry: present exactly when `ss_dataset_name` is, with the
      name behind "dataset: " and frequency 1. */
  function DatasetEntries(md: Metadata): (r: seq<Entry>)
    ensures |r| <= 1
    ensures r == [] <==> DatasetKey !in md
    ensures DatasetKey in md ==> r[0] == Entry(JStr("dataset: " + md[DatasetKey]), One)
  {
    if DatasetKey in md then [Entry(JStr("dataset: " + md[DatasetKey]), One)] else []
  }

  /** f"{v}": a string as it is, anything else through str(). */
  function Show(v: Json, render: Render): string {
    if v.JStr? then v.s else render(v)
  }

  /** `ss_network_args` decodes to a dict with a "network_module" key. */
  predicate NamesModule(md: Metadata, decode: Decoder) {
    && NetworkKey in md
    && decode(md[NetworkKey]).Value?
    && decode(md[NetworkKey]).json.JObj?
    && Lookup(decode(md[NetworkKey]).json.members, "network_module").Some?
  }

  /** The decoded values on which `"network_module" in network_args`, or
      the `network_args['network_module']` after it, raises TypeError: a
      list holding the string, a string containing it, and any number, bool
      or None. */
  predicate ModuleTestRaises(j: Json) {
    || (j.JList? && JStr("network_module") in j.items)
    || (j.JStr? && Contains(j.s, "network_module"))
    || j.JNull? || j.JBool? || j.JInt? || j.JFloat?
  }

  /** `"network_module" in network_args` followed by the lookup. On a dict
      this is a key test; on a list the second step indexes a list by a
      string, on a string it indexes a string by a string, and on a number,
      a bool or None the test itself fails: all raise TypeError. */
  function NetworkEntries(md: Metadata, decode: Decoder, render: Render): (r: Result<seq<Entry>>)
    ensures NetworkKey !in md ==> r == Ok([])
    ensures NetworkKey in md && decode(md[NetworkKey]).Undecodable? ==> r == Ok([])
    ensures r.TypeError? <==> NetworkKey in md && decode(md[NetworkKey]).Value? && ModuleTestRaises(decode(md[NetworkKey]).json)
    ensures r.Ok? && |r.value| == 1 <==> NamesModule(md, decode)
    ensures r.Ok? ==> |r.value| <= 1 && forall e :: e in r.value ==> e.freq == One
    ensures NamesModule(md, decode) ==>
              r.value[0].tag == JStr("network: " + Show(Lookup(decode(md[NetworkKey]).json.members, "network_module").value, render))
  {
    if NetworkKey !in md then Ok([])
    else
      match decode(md[NetworkKey])
      case Undecodable => Ok([])
      case Value(JObj(ms)) =>
        (match Lookup(ms, "network_module")
         case Some(m) => Ok([Entry(JStr("network: " + Show(m, render)), One)])
         case None => Ok([]))
      case Value(JList(items)) => if JStr("network_module") in items then TypeError else Ok([])
      case Value(JStr(s)) => if Contains(s, "network_module") then TypeError else Ok([])
      case Value(_) => TypeError
  }

  /** None of the keys parse_tags reads. */
  predicate Unrecognised(md: Metadata) {
    forall k :: k in md ==> k !in FrequencyKeys && k != CharacterKey && k != DatasetKey && k != NetworkKey
  }

  /** The whole result of parse_tags: it raises exactly when the network block
      does, and metadata without any key it reads gives no entries. */
  function Tags(md: Metadata, decode: Decoder, render: Render): (r: Result<seq<Entry>>)
    ensures r.TypeError? <==> NetworkEntries(md, decode, render).TypeError?
    ensures Unrecognised(md) ==> r == Ok([])
  {
    match NetworkEntries(md, decode, render)
    case TypeError => TypeError
    case Ok(net) =>
      UnrecognisedGivesNothing(md, decode, net);
      Ok(FrequencyEntries(md, decode, FrequencyKeys) + CharacterEntries(md, decode) + DatasetEntries(md) + net)
  }

  lemma UnrecognisedGivesNothing(md: Metadata, decode: Decoder, net: seq<Entry>)
    ensures Unrecognised(md) && net == [] ==>
              FrequencyEntries(md, decode, FrequencyKeys) + CharacterEntries(md, decode) + DatasetEntries(md) + net == []
  {
    if Unrecognised(md) {
      NoKeysNoEntries(md, decode, FrequencyKeys);
    }
  }


  // ---------------------------------------------------------------------
  // What the entries are
  // ---------------------------------------------------------------------

  /** `e` comes from member `m` of a dict-shaped value: from one of the
      members of `m`'s value when that value is itself a dict (the outer key
      is lost), or from `m` itself. */
  predicate FromDictMember(m: (string, Json), e: Entry) {
    if m.1.JObj? then exists j :: 0 <= j < |m.1.members| && e == Entry(JStr(m.1.members[j].0), m.1.members[j].1)
    else e == Entry(JStr(m.0), m.1)
  }

  /** `e` comes from item `x` of a list-shaped value: a string with
      frequency 1, or a dict's "name" with its "frequency", 1 if absent. */
  predicate FromListItem(x: Json, e: Entry) {
    || (x.JStr? && e == Entry(x, One))
    || (x.JObj? && Lookup(x.members, "name") == Some(e.tag) && e.freq == Lookup(x.members, "frequency").GetOr(One))
  }

  lemma DictEntriesSnoc(ms: seq<(string, Json)>, m: (string, Json))
    ensures DictEntries(ms + [m]) == DictEntries(ms) + DictMember(m)
  {
    assert (ms + [m])[..|ms|] == ms;
  }

  /** A dict-shaped value yields its members' entries in member order. */
  lemma {:induction false} DictEntriesAppend(a: seq<(string, Json)>, b: seq<(string, Json)>)
    ensures DictEntries(a + b) == DictEntries(a) + DictEntries(b)
    decreases |b|
  {
    if |b| == 0 {
      assert a + b == a;
    } else {
      var b', m := b[..|b| - 1], b[|b| - 1];
      assert b == b' + [m];
      DictEntriesAppend(a, b');
      DictAppendStep(a, b', m);
    }
  }

  lemma DictAppendStep(a: seq<(string, Json)>, b: seq<(string, Json)>, m: (string, Json))
    requires DictEntries(a + b) == DictEntries(a) + DictEntries(b)
    ensures DictEntries(a + (b + [m])) == DictEntries(a) + DictEntries(b + [m])
  {
    assert a + (b + [m]) == (a + b) + [m];
    DictEntriesSnoc(a + b, m);
    DictEntriesSnoc(b, m);
    Associative(DictEntries(a), DictEntries(b), DictMember(m));
  }


  /** Every entry of a dict-shaped value comes from one of its members, and
      every member yields its entries: one per member, or, for a member
      whose value is a dict, one per inner member. */
  lemma {:induction false} DictShape(ms: seq<(string, Json)>, e: Entry)
    ensures e in DictEntries(ms) <==> exists i :: 0 <= i < |ms| && FromDictMember(ms[i], e)
    decreases |ms|
  {
    if |ms| > 0 {
      var n := |ms| - 1;
      var pre := ms[..n];
      DictShape(pre, e);
      assert forall i :: 0 <= i < n ==> pre[i] == ms[i];
      var m := ms[n];
      assert e in DictMember(m) <==> FromDictMember(m, e) by {
        if m.1.JObj? {
          var inner := InnerEntries(m.1.members);
          if e in inner {
            var j :| 0 <= j < |inner| && inner[j] == e;
            assert 0 <= j < |m.1.members| && e == Entry(JStr(m.1.members[j].0), m.1.members[j].1);
          }
          if FromDictMember(m, e) {
            var j :| 0 <= j < |m.1.members| && e == Entry(JStr(m.1.members[j].0), m.1.members[j].1);
            assert inner[j] == e;
          }
        }
      }
      if e in DictEntries(ms) && !(e in DictEntries(pre)) {
        assert FromDictMember(ms[n], e);
      }
    }
  }

  lemma ListEntriesSnoc(items: seq<Json>, x: Json)
    ensures ListEntries(items + [x]) == ListEntries(items) + ListItem(x)
  {
    assert (items + [x])[..|items|] == items;
  }

  /** A list-shaped value yields its items' entries in item order. */
  lemma {:induction false} ListEntriesAppend(a: seq<Json>, b: seq<Json>)
    ensures ListEntries(a + b) == ListEntries(a) + ListEntries(b)
    decreases |b|
  {
    if |b| == 0 {
      assert a + b == a;
    } else {
      var b', x := b[..|b| - 1], b[|b| - 1];
      assert b == b' + [x];
      ListEntriesAppend(a, b');
      ListAppendStep(a, b', x);
    }
  }

  lemma ListAppendStep(a: seq<Json>, b: seq<Json>, x: Json)
    requires ListEntries(a + b) == ListEntries(a) + ListEntries(b)
    ensures ListEntries(a + (b + [x])) == ListEntries(a) + ListEntries(b + [x])
  {
    assert a + (b + [x]) == (a + b) + [x];
    ListEntriesSnoc(a + b, x);
    ListEntriesSnoc(b, x);
    Associative(ListEntries(a), ListEntries(b), ListItem(x));
  }

  /** At most one entry per item. */
  lemma {:induction false} ListEntriesAtMostOne(items: seq<Json>)
    ensures |ListEntries(items)| <= |items|
    decreases |items|
  {
    if |items| > 0 {
      ListEntriesAtMostOne(items[..|items| - 1]);
    }
  }

  /** Every entry of a list-shaped value comes from a string item (frequency 1)
      or from a dict item with "name"; every such item yields its entry and
      all other items are dropped. */
  lemma {:induction false} ListShape(items: seq<Json>, e: Entry)
    ensures e in ListEntries(items) <==> exists i :: 0 <= i < |items| && FromListItem(items[i], e)
    decreases |items|
  {
    if |items| > 0 {
      var n := |items| - 1;
      var pre := items[..n];
      ListShape(pre, e);
      assert forall i :: 0 <= i < n ==> pre[i] == items[i];
      assert e in ListItem(items[n]) <==> FromListItem(items[n], e);
      if e in ListEntries(items) && !(e in ListEntries(pre)) {
        assert FromListItem(items[n], e);
      }
    }
  }

  /** The recognised keys are read in their fixed order, each present key
      contributing its entries. */
  lemma KeyOrder(md: Metadata, decode: Decoder)
    ensures FrequencyEntries(md, decode, FrequencyKeys)
         == KeyPart(md, decode, "ss_tag_frequency") + KeyPart(md, decode, "ss_tag_frequency_0")
          + KeyPart(md, decode, "tag_frequency") + KeyPart(md, decode, "tags")
  {
    var ks := FrequencyKeys;
    var p0, p1, p2, p3 := KeyPart(md, decode, ks[0]), KeyPart(md, decode, ks[1]), KeyPart(md, decode, ks[2]), KeyPart(md, decode, ks[3]);
    assert ks[..1][..0] == [] && ks[..2][..1] == ks[..1] && ks[..3][..2] == ks[..2] && ks[..4][..3] == ks[..3] && ks[..4] == ks;
    assert FrequencyEntries(md, decode, ks[..1]) == [] + p0 == p0;
    assert FrequencyEntries(md, decode, ks[..2]) == p0 + p1;
    assert FrequencyEntries(md, decode, ks[..3]) == p0 + p1 + p2;
    assert FrequencyEntries(md, decode, ks[..4]) == p0 + p1 + p2 + p3;
  }

  /** A recognised key whose value does not decode contributes its raw
      string, with frequency 1. */
  lemma UndecodableKeepsRaw(md: Metadata, decode: Decoder, render: Render, key: string)
    requires key in FrequencyKeys && key in md && decode(md[key]).Undecodable?
    requires Tags(md, decode, render).Ok?
    ensures Entry(JStr(md[key]), One) in Tags(md, decode, render).value
  {
    KeyOrder(md, decode);
    assert KeyPart(md, decode, key) == [Entry(JStr(md[key]), One)];
  }

  lemma TrailingFrequencies(md: Metadata, decode: Decoder, render: Render)
    requires NetworkEntries(md, decode, render).Ok?
    ensures var t := CharacterEntries(md, decode) + DatasetEntries(md) + NetworkEntries(md, decode, render).value;
            forall k :: 0 <= k < |t| ==> t[k].freq == One
  {
    var c := CharacterEntries(md, decode);
    var d := DatasetEntries(md);
    var n := NetworkEntries(md, decode, render).value;
    var t := c + d + n;
    forall k | 0 <= k < |t| ensures t[k].freq == One {
      if k < |c| { assert t[k] == c[k]; }
      else if k < |c| + |d| { assert t[k] == d[k - |c|]; }
      else { assert t[k] == n[k - |c| - |d|]; }
    }
  }

  /** After the frequency tags come only entries of frequency 1: the
      character tags, then the dataset entry, then the network entry. */
  lemma TrailingEntries(md: Metadata, decode: Decoder, render: Render)
    requires Tags(md, decode, render).Ok?
    ensures var ts := Tags(md, decode, render).value;
            var f := FrequencyEntries(md, decode, FrequencyKeys);
            && |f| <= |ts| && ts[..|f|] == f
            && ts[|f|..] == CharacterEntries(md, decode) + DatasetEntries(md) + NetworkEntries(md, decode, render).value
            && (forall i :: |f| <= i < |ts| ==> ts[i].freq == One)
            && (DatasetKey in md ==> Entry(JStr("dataset: " + md[DatasetKey]), One) in ts[|f|..])
  {
    var f := FrequencyEntries(md, decode, FrequencyKeys);
    var c, d, n := CharacterEntries(md, decode), DatasetEntries(md), NetworkEntries(md, decode, render).value;
    var t := c + d + n;
    assert Tags(md, decode, render).value == f + c + d + n;
    Associative(f + c, d, n);
    Associative(f, c, d + n);
    Associative(c, d, n);
    TrailingFrequencies(md, decode, render);
    Halves(f, t);
    if DatasetKey in md {
      DatasetAfterCharacters(md, decode, render);
    }
  }

  lemma Halves(f: seq<Entry>, t: seq<Entry>)
    ensures (f + t)[..|f|] == f && (f + t)[|f|..] == t
    ensures forall i :: |f| <= i < |f + t| ==> (f + t)[i] == t[i - |f|]
  {
  }

  lemma DatasetAfterCharacters(md: Metadata, decode: Decoder, render: Render)
    requires DatasetKey in md && NetworkEntries(md, decode, render).Ok?
    ensures Entry(JStr("dataset: " + md[DatasetKey]), One)
              in CharacterEntries(md, decode) + DatasetEntries(md) + NetworkEntries(md, decode, render).value
  {
    var c := CharacterEntries(md, decode);
    var t := c + DatasetEntries(md) + NetworkEntries(md, decode, render).value;
    assert t[|c|] == Entry(JStr("dataset: " + md[DatasetKey]), One);
  }

  /** The network entry, when the arguments name a module, is the last entry. */
  lemma NetworkEntryLast(md: Metadata, decode: Decoder, render: Render, ms: seq<(string, Json)>, m: Json)
    requires NetworkKey in md && decode(md[NetworkKey]) == Value(JObj(ms))
    requires Lookup(ms, "network_module") == Some(m)
    ensures Tags(md, decode, render).Ok?
    ensures var ts := Tags(md, decode, render).value;
            |ts| > 0 && ts[|ts| - 1] == Entry(JStr("network: " + Show(m, render)), One)
  {
  }

  // ---------------------------------------------------------------------
  // parse_tags, appending entry by entry
  // ---------------------------------------------------------------------

  method ParseTags(md: Metadata, decode: Decoder, render: Render) returns (r: Result<seq<Entry>>)
    ensures r == Tags(md, decode, render)
  {
    var tags := AppendFrequencies(md, decode);
    if CharacterKey in md {
      match decode(md[CharacterKey]) {
        case Value(JList(items)) =>
          tags := AppendOnes(tags, items);
        case _ =>
      }
    }
    assert tags == FrequencyEntries(md, decode, FrequencyKeys) + CharacterEntries(md, decode);
    if DatasetKey in md {
      tags := tags + [Entry(JStr("dataset: " + md[DatasetKey]), One)];
    }
    assert tags == FrequencyEntries(md, decode, FrequencyKeys) + CharacterEntries(md, decode) + DatasetEntries(md);
    r := AppendNetwork(tags, md, decode, render);
  }

  /** The loop over the recognised keys. */
  method AppendFrequencies(md: Metadata, decode: Decoder) returns (tags: seq<Entry>)
    ensures tags == FrequencyEntries(md, decode, FrequencyKeys)
  {
    tags := [];
    for k := 0 to |FrequencyKeys|
      invariant tags == FrequencyEntries(md, decode, FrequencyKeys[..k])
    {
      var key := FrequencyKeys[k];
      assert FrequencyKeys[..k + 1][..k] == FrequencyKeys[..k];
      if key in md {
        var raw := md[key];
        match decode(raw) {
          case Undecodable =>
            tags := tags + [Entry(JStr(raw), One)];
          case Value(JObj(ms)) =>
            tags := AppendDict(tags, ms);
          case Value(JList(items)) =>
            tags := AppendList(tags, items);
          case Value(_) =>
        }
      }
    }
    assert FrequencyKeys[..|FrequencyKeys|] == FrequencyKeys;
  }

  /** The ss_network_args block: the network entry, or the TypeError of
      `in` or of indexing on a value that is not a dict. */
  method AppendNetwork(tags: seq<Entry>, md: Metadata, decode: Decoder, render: Render) returns (r: Result<seq<Entry>>)
    ensures NetworkEntries(md, decode, render).TypeError? ==> r == TypeError
    ensures NetworkEntries(md, decode, render).Ok? ==> r == Ok(tags + NetworkEntries(md, decode, render).value)
  {
    var out := tags;
    if NetworkKey in md {
      match decode(md[NetworkKey]) {
        case Undecodable =>
        case Value(JObj(ms)) =>
          var m := Lookup(ms, "network_module");
          if m.Some? {
            out := out + [Entry(JStr("network: " + Show(m.value, render)), One)];
          }
        case Value(JList(items)) =>
          if JStr("network_module") in items { return TypeError; }
        case Value(JStr(s)) =>
          if Contains(s, "network_module") { return TypeError; }
        case Value(_) =>
          return TypeError;
      }
    }
    assert out == tags + NetworkEntries(md, decode, render).value;
    r := Ok(out);
  }

  /** The loop over a dict-shaped value, with the inner loop over a nested dict. */
  method AppendDict(tags: seq<Entry>, ms: seq<(string, Json)>) returns (out: seq<Entry>)
    ensures out == tags + DictEntries(ms)
  {
    out := tags;
    for i := 0 to |ms|
      invariant out == tags + DictEntries(ms[..i])
    {
      assert ms[..i + 1][..i] == ms[..i];
      var (tag, freq) := ms[i];
      if freq.JObj? {
        ghost var mid := out;
        for j := 0 to |freq.members|
          invariant out == mid + InnerEntries(freq.members[..j])
        {
          assert freq.members[..j + 1][..j] == freq.members[..j];
          out := out + [Entry(JStr(freq.members[j].0), freq.members[j].1)];
          Associative(mid, InnerEntries(freq.members[..j]), [Entry(JStr(freq.members[j].0), freq.members[j].1)]);
        }
        assert freq.members[..|freq.members|] == freq.members;
      } else {
        out := out + [Entry(JStr(tag), freq)];
      }
      Associative(tags, DictEntries(ms[..i]), DictMember(ms[i]));
    }
    assert ms[..|ms|] == ms;
  }

  /** The loop over a list-shaped value. */
  method AppendList(tags: seq<Entry>, items: seq<Json>) returns (out: seq<Entry>)
    ensures out == tags + ListEntries(items)
  {
    out := tags;
    for i := 0 to |items|
      invariant out == tags + ListEntries(items[..i])
    {
      assert items[..i + 1][..i] == items[..i];
      var item := items[i];
      if item.JStr? {
        out := out + [Entry(item, One)];
      } else if item.JObj? && Lookup(item.members, "name").Some? {
        var freq := Lookup(item.members, "frequency").GetOr(One);
        out := out + [Entry(Lookup(item.members, "name").value, freq)];
      }
      Associative(tags, ListEntries(items[..i]), ListItem(item));
    }
    assert items[..|items|] == items;
  }

  /** The loop over the character tags. */
  method AppendOnes(tags: seq<Entry>, items: seq<Json>) returns (out: seq<Entry>)
    ensures out == tags + OnePerItem(items)
  {
    out := tags;
    for i := 0 to |items|
      invariant out == tags + OnePerItem(items[..i])
    {
      assert items[..i + 1][..i] == items[..i];
      out := out + [Entry(items[i], One)];
      Associative(tags, OnePerItem(items[..i]), [Entry(items[i], One)]);
    }
    assert items[..|items|] == items;
  }
}
