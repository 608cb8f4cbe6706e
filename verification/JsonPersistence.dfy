/** The printer and the parser together, as the parameter files use them. */
module JsonPersistence {
  import opened JsonValue
  import JsonParser
  import JsonReader
  import JsonRoundTrip
  import JsonWriter

  /** Printing a value and parsing the text with any features: it succeeds exactly if the value
      fits, no keys collide where duplicates are rejected and the root is allowed; the value
      comes back in canonical form without errors, which is unchanged exactly if it is faithful. */
  method WriteThenParse(writer: JsonWriter.FastWriter, reader: JsonReader.OurReader, v: Value)
      returns (outcome: JsonParser.Outcome, read: Value)
    requires JsonRoundTrip.Readable(reader.config, writer.GetStyle(), v) && !writer.dropNullPlaceholders
    modifies writer`document, reader
    ensures var config := reader.config;
      var fits, apart := Fits(v, config.features.stackLimit), JsonRoundTrip.NoDuplicates(config, v);
      && (outcome == JsonParser.Success <==> fits && apart && JsonRoundTrip.RootAllowed(config, v))
      && (outcome == JsonParser.Thrown ==> !fits)
      && (!fits && apart ==> outcome == JsonParser.Thrown)
      && (fits && apart ==> read == Canonical(v) && reader.current == |reader.document|)
    ensures outcome == JsonParser.Success ==> reader.errors == []
    ensures outcome == JsonParser.Success ==> (read == v <==> Faithful(v))
    ensures outcome != JsonParser.Thrown ==> reader.nodes == []
  {
    ghost var style := writer.GetStyle();
    JsonRoundTrip.ReadableShown(reader.config, style, v);
    hide Fits, Canonical, Faithful, JsonWriter.Document, JsonParser.ParseDocument, JsonRoundTrip.NoDuplicates;
    hide JsonRoundTrip.Readable;
    var text := writer.Write(v);
    outcome, read := reader.Parse(text, NullValue);
    JsonRoundTrip.DocumentRoundTrip(reader.config, style, v, NullValue);
    CanonicalExact(v);
  }
}
