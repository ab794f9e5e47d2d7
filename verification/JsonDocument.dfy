/** `NodeTreeWriter::write` followed by `OurReader::parse`. */
module JsonDocument {
  import opened JsonValue
  import opened JsonGrammar
  import opened JsonRoundTrip
  import opened JsonWriter
  import opened JsonReader

  /** Every value without reals is read back, unless it nests deeper than the reader allows or has a
      name beyond its limit; it is what was written, integers compared by value, exactly when all its
      strings and names are valid UTF-8. */
  method WriteThenRead(v: Value) returns (verdict: Verdict, root: Value)
    requires Storable(v)
    ensures verdict == if Fits(v, STACK_LIMIT) then Good else Thrown
    ensures verdict == Good ==> root == Read(v) && (root == Norm(v) <==> AllUtf8(v))
  {
    hide Text, ParseDocument, Read, Norm, AllUtf8, Fits;
    DocumentRoundTrip(v);
    ReadIsNorm(v);
    var writer := new BuiltStyledStreamWriter();
    writer.Write(v);
    assert [] + Text(v) == Text(v);
    var reader := new OurReader(writer.out);
    verdict, root := reader.Parse();
  }
}
