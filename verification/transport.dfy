/**
 * The transport-level status that a classified error is translated to at an RPC
 * boundary. The status library itself is foreign: a status is modelled as the
 * value it carries (its message and its list of detail messages), and the one
 * detail message this system defines, `Status{Code, Http, Ref}`, as a record.
 */
module Transport {
  import opened Wrappers

  /** A detail message attached to a status: the system's own `Status`
      record (all three fields as they travel, `Code` and `Http` being int32),
      or a detail of some other message type. */
  datatype Detail =
    | StatusDetail(Code: int, Http: int, Ref: string)
    | OtherDetail(typeUrl: string)

  /** A transport status: its message and its details, in order. */
  datatype GrpcStatus = GrpcStatus(message: string, details: seq<Detail>)

  const Int32Min: int := -0x8000_0000
  const Int32Max: int := 0x7FFF_FFFF

  predicate InInt32(x: int) {
    Int32Min <= x <= Int32Max
  }

  /** Go's conversion `int32(x)`: keeps the low 32 bits, read as two's complement. */
  function Int32(x: int): (r: int)
    ensures InInt32(r)
    ensures InInt32(x) ==> r == x
    ensures (x - r) % 0x1_0000_0000 == 0
  {
    var low := (x - Int32Min) % 0x1_0000_0000;
    assert x - (low + Int32Min) == ((x - Int32Min) / 0x1_0000_0000) * 0x1_0000_0000;
    low + Int32Min
  }

  /** The first detail of type `Status`, as the type switch over a status's
      details finds it. */
  function FirstStatusDetail(ds: seq<Detail>): (r: Option<Detail>)
    ensures r.None? <==> forall i :: 0 <= i < |ds| ==> !ds[i].StatusDetail?
    ensures r.Some? ==> r.value.StatusDetail? && r.value in ds
    ensures r.Some? ==> exists i :: 0 <= i < |ds| && ds[i] == r.value && forall j :: 0 <= j < i ==> !ds[j].StatusDetail?
  {
    if |ds| == 0 then None
    else if ds[0].StatusDetail? then Some(ds[0])
    else
      var rest := FirstStatusDetail(ds[1..]);
      assert forall i :: 1 <= i < |ds| ==> ds[i] == ds[1..][i - 1];
      if rest.Some? then
        var k :| 0 <= k < |ds| - 1 && ds[1..][k] == rest.value && forall j :: 0 <= j < k ==> !ds[1..][j].StatusDetail?;
        assert ds[k + 1] == rest.value && forall j :: 0 <= j < k + 1 ==> !ds[j].StatusDetail?;
        rest
      else
        rest
  }
}
