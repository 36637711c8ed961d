/** The writer and the reader as they run, one after the other. */
module EndToEnd {
  import opened Bytes
  import opened Decimal
  import opened JsonValue
  import opened SameAs
  import opened ReaderSpec
  import opened Diagnostics
  import opened Reader
  import opened WriterSpec
  import opened Writer
  import opened Layout
  import opened RoundTrip
  import opened Orders

  lemma {:induction false} WritableIsProper(o: Ordered)
    requires Writable(o)
    ensures ProperLeaves(o)
  {
    match o {
      case Leaf(_) =>
      case OArr(items) =>
        forall i | 0 <= i < |items| ensures ProperLeaves(items[i]) { WritableIsProper(items[i]); }
      case OObj(members) =>
        forall i | 0 <= i < |members| ensures ProperLeaves(members[i].value) {
          assert members[i].value < members[i];
          WritableIsProper(members[i].value);
        }
    }
  }

  lemma MayBeWritten(lib: Lib, style: Style, o: Ordered)
    requires Fits(lib, style, o)
    ensures ProperLeaves(o)
  {
    FitsIsWritable(lib, style, o);
    WritableIsProper(o);
  }

  lemma NothingToReport(input: Text, max: int)
    ensures Within(input, []) && Report(input, [], max) == []
  {
  }

  /** A tree, written in any order of its members and read again: the parser returns, it counts no error whatever its
      limit, and IsSameAs finds the two trees the same. */
  method WriteAndRead(lib: Lib, round: Rounding, style: Style, flags: Flags, maxErrors: int, o: Ordered, tree: JValue,
      v0: JValue)
    returns (writer: JsonWriter, reader: JsonReader, hung: bool, numErrors: int, v: JValue, same: bool)
    requires Orders.Orders(lib, style, o, tree) && (tree.Arr? || tree.Obj?) && !IsContainer(v0) && CutsAtLf(lib)
    requires StoreComments !in flags
    requires Splits(style) ==> MultiString in flags
    ensures reader.Valid() && reader.input == writer.out && reader.flags == flags
    ensures !hung && numErrors == 0 && same
    ensures style.recognizeUnsigned ==> v == tree
  {
    hide Fits, NoBuff, Parse, Written, Select, Report, AllExpected, ProperLeaves, Same;
    MayBeWritten(lib, style, o);
    NotALeaf(o);
    writer := new JsonWriter(style);
    writer.Write(o);
    assert writer.out == Written(style, o);
    ghost var ch, s, r := RoundTripIsSame(lib, round, style, o, v0);
    reader := new JsonReader(lib, flags, maxErrors);
    hung, numErrors, v := reader.Parse(writer.out, v0);
    NoErrors(style, flags, reader.log);
    NothingToReport(reader.input, maxErrors);
    same := IsSameAs(round, v, tree);
  }

  lemma NotALeaf(o: Ordered)
    requires ValueOf(o).Arr? || ValueOf(o).Obj?
    requires ProperLeaves(o)
    ensures !o.Leaf?
  {
  }
}
