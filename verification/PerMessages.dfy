/** The writer and the reader object, one after the other. */
module PerMessages {
  import opened Wrappers
  import opened PerSpec
  import opened PerSchema
  import opened PerConditions
  import opened PerRoundTrip
  import opened PerTree
  import PerWriter
  import PerReader

  /**
    Marshalling with the one object and unmarshalling with the other returns every value that
    is accepted and survives; what is not accepted fails at the first.
  */
  method Exchange(schema: Schema, v: Value, ref: Option<Int64>) returns (sent: bool, r: Option<Value>)
    requires WellFormed(schema) && Fits(schema, v, []) && Wide(schema)
    ensures sent <==> Accepts(schema, v, ref, 0)
    ensures sent ==> r == Some(Plain(v))
  {
    hide WellFormed, Fits, Wide, Encode, Decode, Plain, Unmarshal, Accepts, EndOf;
    AcceptExact(schema, v, ref, []);
    var bytes := PerWriter.MarshalValue(schema, v, ref);
    if bytes.None? {
      return false, None;
    }
    MessageRoundTrip(schema, v, ref, bytes.value);
    r := PerReader.UnmarshalValue(schema, ref, bytes.value);
    return true, r;
  }
}
