/** The submission loader: a submission module must provide `header_bits`,
    `encode` and `decode`, probed in that order; loading fails with a message
    naming the first one that is missing. The imported module is modelled by
    its name and the map from its attribute names to their (opaque) values. */
module Loader {
  import opened Wrappers

  datatype Module<V> = Module(name: string, attrs: map<string, V>)

  datatype Capability = HeaderBits | Encode | Decode

  /** The order in which `load` looks the capabilities up. */
  const ProbeOrder: seq<Capability> := [HeaderBits, Encode, Decode]

  function AttrName(c: Capability): string
  {
    match c
    case HeaderBits => "header_bits"
    case Encode => "encode"
    case Decode => "decode"
  }

  /** The message of the `RuntimeError` raised for a missing capability. */
  function MissingMessage(c: Capability): string
  {
    "No `" + AttrName(c) + "` function found"
  }

  /** The loaded submission: the module and the three capabilities taken from it. */
  datatype Submission<V> = Submission(mod: Module<V>, headerBits: V, encode: V, decode: V)

  function Load<V>(m: Module<V>): (r: Result<Submission<V>, string>)
    // it succeeds exactly when all three capabilities are there ...
    ensures r.Success? <==> forall c: Capability :: AttrName(c) in m.attrs
    // ... and then holds exactly those three attributes of the module
    ensures r.Success? ==>
      && r.value.mod == m
      && r.value.headerBits == m.attrs[AttrName(HeaderBits)]
      && r.value.encode == m.attrs[AttrName(Encode)]
      && r.value.decode == m.attrs[AttrName(Decode)]
    // otherwise it names the first capability, in probing order, that is missing
    ensures r.Failure? ==> exists i :: (
      && 0 <= i < |ProbeOrder|
      && AttrName(ProbeOrder[i]) !in m.attrs
      && (forall j :: 0 <= j < i ==> AttrName(ProbeOrder[j]) in m.attrs)
      && r.error == MissingMessage(ProbeOrder[i]))
  {
    if "header_bits" !in m.attrs then
      assert AttrName(ProbeOrder[0]) !in m.attrs;
      Failure(MissingMessage(HeaderBits))
    else if "encode" !in m.attrs then
      assert AttrName(ProbeOrder[1]) !in m.attrs;
      Failure(MissingMessage(Encode))
    else if "decode" !in m.attrs then
      assert AttrName(ProbeOrder[2]) !in m.attrs;
      Failure(MissingMessage(Decode))
    else Success(Submission(m, m.attrs["header_bits"], m.attrs["encode"], m.attrs["decode"]))
  }

  /** The three messages differ, so a failure message tells which capability is missing. */
  lemma MissingMessageInjective(c: Capability, d: Capability)
    requires MissingMessage(c) == MissingMessage(d)
    ensures c == d
  {
    var mc, md := MissingMessage(c), MissingMessage(d);
    assert mc[4] == AttrName(c)[0] && md[4] == AttrName(d)[0];
  }

  /** A failure naming `c` means `c` is missing and every capability probed before it is present. */
  lemma LoadFailureNames<V>(m: Module<V>, c: Capability)
    requires Load(m) == Failure(MissingMessage(c))
    ensures AttrName(c) !in m.attrs
    ensures forall j :: 0 <= j < |ProbeOrder| && ProbeOrder[j] == c ==>
      forall k :: 0 <= k < j ==> AttrName(ProbeOrder[k]) in m.attrs
  {
    var i :| 0 <= i < |ProbeOrder|
      && AttrName(ProbeOrder[i]) !in m.attrs
      && (forall j :: 0 <= j < i ==> AttrName(ProbeOrder[j]) in m.attrs)
      && Load(m).error == MissingMessage(ProbeOrder[i]);
    MissingMessageInjective(ProbeOrder[i], c);
    assert ProbeOrder[i] == c;
    forall j | 0 <= j < |ProbeOrder| && ProbeOrder[j] == c
      ensures j == i
    {
      assert ProbeOrder[0] != ProbeOrder[1] && ProbeOrder[1] != ProbeOrder[2] && ProbeOrder[0] != ProbeOrder[2];
    }
  }
}
