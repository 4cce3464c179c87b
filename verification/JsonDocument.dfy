/** JSON documents as Postgres stores them and as Go's `encoding/json` carries
    them through `map[string]any`. */
module JsonDocument {
  import opened Wrappers
  import opened JsonNumber

  /** A number is counted in steps of the codec's grid. */
  datatype Json =
    | Null
    | Bool(b: bool)
    | Num(n: int)
    | Str(text: string)
    | Arr(items: seq<Json>)
    | Obj(members: map<string, Json>)

  type Document = map<string, Json>

  function MapNumbers(v: Json, f: int -> int): Json {
    match v
    case Num(n) => Num(f(n))
    case Arr(items) => Arr(seq(|items|, i requires 0 <= i < |items| => MapNumbers(items[i], f)))
    case Obj(members) => Obj(map k | k in members :: MapNumbers(members[k], f))
    case _ => v
  }

  predicate AllNumbers(v: Json, p: int -> bool) {
    match v
    case Num(n) => p(n)
    case Arr(items) => forall i :: 0 <= i < |items| ==> AllNumbers(items[i], p)
    case Obj(members) => forall k :: k in members ==> AllNumbers(members[k], p)
    case _ => true
  }

  function MapDoc(d: Document, f: int -> int): Document {
    map k | k in d :: MapNumbers(d[k], f)
  }

  predicate AllInDoc(d: Document, p: int -> bool) {
    forall k :: k in d ==> AllNumbers(d[k], p)
  }

  lemma {:induction false} MapTwice(v: Json, f: int -> int, g: int -> int, h: int -> int)
    requires forall n :: h(n) == g(f(n))
    ensures MapNumbers(MapNumbers(v, f), g) == MapNumbers(v, h)
  {
    match v
    case Arr(items) =>
      forall i | 0 <= i < |items|
        ensures MapNumbers(MapNumbers(items[i], f), g) == MapNumbers(items[i], h)
      {
        MapTwice(items[i], f, g, h);
      }
    case Obj(members) =>
      forall k | k in members
        ensures MapNumbers(MapNumbers(members[k], f), g) == MapNumbers(members[k], h)
      {
        MapTwice(members[k], f, g, h);
      }
    case _ =>
  }

  /** A value is unchanged exactly when each of its numbers is. */
  lemma {:induction false} MapFixes(v: Json, f: int -> int, p: int -> bool)
    requires forall n :: p(n) <==> f(n) == n
    ensures MapNumbers(v, f) == v <==> AllNumbers(v, p)
  {
    match v
    case Arr(items) =>
      forall i | 0 <= i < |items|
        ensures MapNumbers(items[i], f) == items[i] <==> AllNumbers(items[i], p)
      {
        MapFixes(items[i], f, p);
      }
      var out := MapNumbers(v, f);
      assert forall i :: 0 <= i < |items| ==> out.items[i] == MapNumbers(items[i], f);
    case Obj(members) =>
      forall k | k in members
        ensures MapNumbers(members[k], f) == members[k] <==> AllNumbers(members[k], p)
      {
        MapFixes(members[k], f, p);
      }
      var out := MapNumbers(v, f);
      assert forall k :: k in members ==> out.members[k] == MapNumbers(members[k], f);
    case _ =>
  }

  lemma {:induction false} MapGives(v: Json, f: int -> int, p: int -> bool, q: int -> bool)
    requires AllNumbers(v, p) && forall n :: p(n) ==> q(f(n))
    ensures AllNumbers(MapNumbers(v, f), q)
  {
    match v
    case Arr(items) =>
      forall i | 0 <= i < |items|
        ensures AllNumbers(MapNumbers(items[i], f), q)
      {
        MapGives(items[i], f, p, q);
      }
    case Obj(members) =>
      forall k | k in members
        ensures AllNumbers(MapNumbers(members[k], f), q)
      {
        MapGives(members[k], f, p, q);
      }
    case _ =>
  }

  // -------------------------------------------------------------- The codec

  /** `parse` gives the stored document of a text, numerals exact, on a grid fine
      enough for all of them; `spell` writes a document. */
  datatype JsonCodec = JsonCodec(scale: Scale, parse: string -> Option<Document>, spell: Document -> string) {

    /** `json.Unmarshal` into `map[string]any`: every number becomes a float64, and
        one out of its range is an error. */
    function Decode(raw: string): Option<Document> {
      match parse(raw)
      case None => None
      case Some(d) => if AllInDoc(d, scale.InRange) then Some(MapDoc(d, scale.Decoded)) else None
    }

    /** `json.Marshal`. */
    function Encode(d: Document): string {
      spell(MapDoc(d, scale.Encoded))
    }
  }

  /** What is written parses to itself. */
  ghost predicate Faithful(codec: JsonCodec) {
    forall d :: codec.parse(codec.spell(d)) == Some(d)
  }

  /** A decoded document holds float64 values only. */
  lemma DecodeFits(codec: JsonCodec, raw: string)
    requires codec.Decode(raw).Some?
    ensures AllInDoc(codec.Decode(raw).value, codec.scale.Fits)
  {
    var d, sc := codec.parse(raw).value, codec.scale;
    forall n | sc.InRange(n)
      ensures sc.Fits(sc.Decoded(n))
    {
      DecodedFits(sc, n);
    }
    forall k | k in d
      ensures AllNumbers(MapNumbers(d[k], sc.Decoded), sc.Fits)
    {
      MapGives(d[k], sc.Decoded, sc.InRange, sc.Fits);
    }
  }

  /** Encoding a document of float64 values and decoding it gives it back. */
  lemma EncodeDecodes(codec: JsonCodec, d: Document)
    requires Faithful(codec) && AllInDoc(d, codec.scale.Fits)
    ensures codec.Decode(codec.Encode(d)) == Some(d)
  {
    var sc := codec.scale;
    var e := MapDoc(d, sc.Encoded);
    forall k | k in d
      ensures AllNumbers(e[k], sc.InRange) && MapNumbers(e[k], sc.Decoded) == d[k]
    {
      MemberReadsBack(sc, d[k]);
    }
    assert MapDoc(e, sc.Decoded) == d;
  }

  lemma {:induction false} MemberReadsBack(sc: Scale, v: Json)
    requires AllNumbers(v, sc.Fits)
    ensures AllNumbers(MapNumbers(v, sc.Encoded), sc.InRange)
    ensures MapNumbers(MapNumbers(v, sc.Encoded), sc.Decoded) == v
    decreases v
  {
    match v
    case Num(n) => EncodedFits(sc, n);
    case Arr(items) =>
      forall i | 0 <= i < |items|
        ensures AllNumbers(MapNumbers(items[i], sc.Encoded), sc.InRange)
        ensures MapNumbers(MapNumbers(items[i], sc.Encoded), sc.Decoded) == items[i]
      {
        MemberReadsBack(sc, items[i]);
      }
    case Obj(members) =>
      forall k | k in members
        ensures AllNumbers(MapNumbers(members[k], sc.Encoded), sc.InRange)
        ensures MapNumbers(MapNumbers(members[k], sc.Encoded), sc.Decoded) == members[k]
      {
        MemberReadsBack(sc, members[k]);
      }
    case _ =>
  }

  /** What a stored member comes back as, and when it comes back unchanged. */
  lemma MemberReread(sc: Scale, v: Json)
    ensures MapNumbers(MapNumbers(v, sc.Decoded), sc.Encoded) == MapNumbers(v, sc.Reread)
    ensures MapNumbers(v, sc.Reread) == v <==> AllNumbers(v, sc.Survives)
  {
    MapTwice(v, sc.Decoded, sc.Encoded, sc.Reread);
    MapFixes(v, sc.Reread, sc.Survives);
  }

  /** Numbers are reached at any depth: a change anywhere inside is a change. */
  lemma NestedNumber(v: Json, f: int -> int, items: seq<Json>, i: nat, members: map<string, Json>, k: string)
    requires MapNumbers(v, f) != v
    ensures i < |items| && items[i] == v ==> MapNumbers(Arr(items), f) != Arr(items)
    ensures k in members && members[k] == v ==> MapNumbers(Obj(members), f) != Obj(members)
  {
    if i < |items| && items[i] == v {
      assert MapNumbers(Arr(items), f).items[i] == MapNumbers(v, f);
    }
    if k in members && members[k] == v {
      assert MapNumbers(Obj(members), f).members[k] == MapNumbers(v, f);
    }
  }
}
