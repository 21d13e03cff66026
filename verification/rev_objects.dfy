/**
 * Revision objects and the codec the store uses for them.  The real serializer is
 * not part of this model; it is replaced by a stand-in with the same interface
 * (`write(object) -> bytes`, `read(id, bytes) -> object`): one tag byte for the kind,
 * then the object's body.  The id is not part of the encoding, since `read` is given it.
 */
module RevObjects {
  import opened Wrappers
  import opened Bytes
  import opened ObjectIds

  /** The closed set of object kinds. */
  datatype Kind = Commit | Tree | Feature | FeatureType | Tag

  /** An immutable revision object: its kind, its identity and its content. */
  datatype RevObject = RevObject(kind: Kind, id: ObjectId, body: seq<byte>)

  function KindTag(k: Kind): byte {
    match k
    case Commit => 1
    case Tree => 2
    case Feature => 3
    case FeatureType => 4
    case Tag => 5
  }

  function TagKind(b: byte): (r: Option<Kind>)
    ensures r.Some? ==> KindTag(r.value) == b
  {
    if b == 1 then Some(Commit)
    else if b == 2 then Some(Tree)
    else if b == 3 then Some(Feature)
    else if b == 4 then Some(FeatureType)
    else if b == 5 then Some(Tag)
    else None
  }

  /** `serializer.write`: the object's canonical bytes. */
  function Encode(o: RevObject): (r: seq<byte>)
    ensures |r| > 0
  {
    [KindTag(o.kind)] + o.body
  }

  /** `serializer.read(id, bytes)`: None where the bytes are not an encoding; the encoding is canonical, so bytes that decode are exactly the encoding of what they decode to. */
  function Decode(id: ObjectId, bytes: seq<byte>): (r: Option<RevObject>)
    ensures r.Some? ==> r.value.id == id && Encode(r.value) == bytes
  {
    if |bytes| == 0 then None
    else match TagKind(bytes[0])
      case None => None
      case Some(k) =>
        assert bytes == [bytes[0]] + bytes[1..];
        Some(RevObject(k, id, bytes[1..]))
  }

  /** Reading back what was written gives the same object. */
  lemma DecodeEncode(o: RevObject)
    ensures Decode(o.id, Encode(o)) == Some(o)
  {
    var k := TagKind(KindTag(o.kind));
    assert k == Some(o.kind) by {
      match o.kind
      case Commit =>
      case Tree =>
      case Feature =>
      case FeatureType =>
      case Tag =>
    }
    assert Encode(o)[1..] == o.body;
  }

  /** `type.isInstance(object)`: `None` stands for `RevObject.class`, which every object is an instance of. */
  predicate IsInstance(o: RevObject, expected: Option<Kind>) {
    expected.None? || o.kind == expected.value
  }
}
