// The schema file: written by src/fastdyn/binary/schema_gen.py:32-61, read and looked up by
// virtuals/introspection/schema_loader.c:49-121.
module SchemaLoader {
  import opened Options
  import opened Text
  import opened SchemaGen

  const MAX_ENTRIES: nat := 64       // structures, and symbols
  const INT_MAX: nat := 0x7FFF_FFFF
  const UINT_MAX: nat := 0xFFFF_FFFF

  datatype StructSchema = StructSchema(name: string, fields: seq<Field>)

  datatype Symbol = Symbol(name: string, address: nat)

  datatype Schema = Schema(structs: seq<StructSchema>, symbols: seq<Symbol>)

  // ----- the generator -----

  /** A named structure entry of the debug information. */
  datatype StructDie = StructDie(name: string, members: seq<Member>)

  predicate Parsed(structs: seq<StructSchema>, name: string) {
    exists i | 0 <= i < |structs| :: structs[i].name == name
  }

  /** The wanted structures, each from its first entry, in the order found. */
  function Wanted(dies: seq<StructDie>, targets: set<string>): seq<StructSchema> {
    if dies == [] then []
    else
      var die, before := dies[|dies| - 1], Wanted(dies[..|dies| - 1], targets);
      if die.name in targets && !Parsed(before, die.name)
      then before + [StructSchema(die.name, Flatten(die.members, "", 0))]
      else before
  }

  method ParseStructs(dies: seq<StructDie>, targets: set<string>) returns (parsed: seq<StructSchema>)
    ensures parsed == Wanted(dies, targets)
  {
    parsed := [];
    for i := 0 to |dies|
      invariant parsed == Wanted(dies[..i], targets)
    {
      assert dies[..i + 1][..i] == dies[..i];
      if dies[i].name in targets && !Parsed(parsed, dies[i].name) {
        var fields := FlattenStruct(dies[i].members, "", 0);
        parsed := parsed + [StructSchema(dies[i].name, fields)];
      }
    }
    assert dies[..|dies|] == dies;
  }

  function FieldLine(f: Field): string {
    f.name + (" " + (PrintDec(f.offset) + (" " + (PrintDec(f.size) + (" " + (PrintDec(f.kind) + "\n"))))))
  }

  function FieldLines(fields: seq<Field>): string {
    if fields == [] then "" else FieldLine(fields[0]) + FieldLines(fields[1..])
  }

  function StructText(st: StructSchema): string {
    "STRUCT" + (" " + (st.name + (" " + (PrintDec(|st.fields|) + ("\n" + FieldLines(st.fields))))))
  }

  function StructsText(structs: seq<StructSchema>): string {
    if structs == [] then "" else StructText(structs[0]) + StructsText(structs[1..])
  }

  function SymbolLine(sym: Symbol): string {
    "SYMBOL" + (" " + (sym.name + (" " + (PrintHex0x(sym.address) + "\n"))))
  }

  function SymbolsText(symbols: seq<Symbol>): string {
    if symbols == [] then "" else SymbolLine(symbols[0]) + SymbolsText(symbols[1..])
  }

  /** The lines joined by newlines with one more at the end, so an empty schema is one newline. */
  function Print(schema: Schema): string {
    if schema.structs == [] && schema.symbols == [] then "\n"
    else StructsText(schema.structs) + SymbolsText(schema.symbols)
  }

  lemma FieldPrintsAs()
    ensures FieldLine(Field("pid", 12, 4, 3)) == "pid 12 4 3\n"
  {
    assert PrintDec(12) == "12" && PrintDec(4) == "4" && PrintDec(3) == "3" by {
      assert PrintNumber(1, 10) == "1";
    }
    hide PrintDec;
  }

  lemma SymbolPrintsAs()
    ensures SymbolLine(Symbol("init", 0x80)) == "SYMBOL init 0x80\n"
  {
    assert PrintHex0x(0x80) == "0x80" by {
      assert PrintNumber(8, 16) == "8";
    }
    hide PrintHex0x;
  }

  lemma HeadPrintsAs(field: Field)
    ensures StructText(StructSchema("task", [field])) == "STRUCT task 1\n" + FieldLine(field)
  {
    hide FieldLine, PrintDec;
    assert PrintDec(1) == "1" by { OneIsPrinted(); }
    assert [field][1..] == [];
    assert FieldLines([field]) == FieldLine(field);
  }

  lemma OneIsPrinted()
    ensures PrintDec(1) == "1"
  {
  }

  /** The file as the loader of the plugin finds it. */
  lemma SchemaPrintsAs()
    ensures Print(Schema([StructSchema("task", [Field("pid", 12, 4, 3)])], [Symbol("init", 0x80)])) ==
            "STRUCT task 1\n" + "pid 12 4 3\n" + "SYMBOL init 0x80\n"
  {
    hide FieldLine, SymbolLine, StructText;
    FieldPrintsAs();
    SymbolPrintsAs();
    HeadPrintsAs(Field("pid", 12, 4, 3));
    var struct_, symbol := StructSchema("task", [Field("pid", 12, 4, 3)]), Symbol("init", 0x80);
    assert [struct_][1..] == [] && [symbol][1..] == [];
    assert StructsText([struct_]) == StructText(struct_) && SymbolsText([symbol]) == SymbolLine(symbol);
  }

  // ----- the loader -----

  /** %<max>s: a word, cut after max characters. */
  function ScanToken(s: string, max: nat): (r: Scan<string>)
    requires max > 0
    ensures r.Match? ==> |r.rest| < |s|
  {
    var t := SkipSpace(s);
    var k := WordRun(t);
    if k == 0 then NoMatch
    else if k <= max then Match(t[..k], t[k..])
    else Match(t[..max], t[max..])
  }

  /** A word is read back whole exactly if it fits. */
  lemma TokenReadsBackIff(lead: string, w: string, tail: string, max: nat)
    requires max > 0 && IsLead(lead) && IsWord(w) && (tail == "" || IsSpace(tail[0]))
    ensures ScanToken(lead + (w + tail), max) == Match(w, tail) <==> |w| <= max
  {
    WordRunOf(w, tail);
    assert (w + tail)[..|w|] == w && (w + tail)[|w|..] == tail;
    assert (w + tail)[0] == w[0];
    SkipLead(lead, w + tail);
  }

  /** One field; none when a conversion fails, which leaves the original's variables unset. */
  function ScanField(s: string): (r: Scan<Field>)
    ensures r.Match? ==> |r.rest| < |s|
  {
    var name := ScanToken(s, 255);
    if name.NoMatch? then NoMatch else
      var off := ScanDec(name.rest);
      if off.NoMatch? then NoMatch else
        var size := ScanDec(off.rest);
        if size.NoMatch? then NoMatch else
          var kind := ScanDec(size.rest);
          if kind.NoMatch? then NoMatch
          else Match(Field(name.value, off.value, size.value, kind.value), kind.rest)
  }

  function ScanFields(s: string, n: nat): (r: Scan<seq<Field>>)
    ensures r.Match? ==> |r.rest| <= |s|
    decreases n
  {
    if n == 0 then Match([], s) else
      var first := ScanField(s);
      if first.NoMatch? then NoMatch else
        var others := ScanFields(first.rest, n - 1);
        if others.NoMatch? then NoMatch else Match([first.value] + others.value, others.rest)
  }

  function ScanStruct(s: string): (r: Scan<StructSchema>)
    ensures r.Match? ==> |r.rest| < |s|
  {
    var name := ScanToken(s, 127);
    if name.NoMatch? then NoMatch else
      var count := ScanDec(name.rest);
      if count.NoMatch? then NoMatch else
        var fields := ScanFields(count.rest, count.value);
        if fields.NoMatch? then NoMatch else Match(StructSchema(name.value, fields.value), fields.rest)
  }

  function ScanSymbol(s: string): (r: Scan<Symbol>)
    ensures r.Match? ==> |r.rest| < |s|
  {
    var name := ScanToken(s, 127);
    if name.NoMatch? then NoMatch else
      var address := ScanHex(name.rest);
      if address.NoMatch? then NoMatch else Match(Symbol(name.value, address.value), address.rest)
  }

  /** load_fastdyn_schemas from what is loaded so far. None when a record is cut short or the tables of
      64 entries would overflow. */
  function LoadFrom(s: string, loaded: Schema): Option<Schema>
    decreases |s|
  {
    var marker := ScanToken(s, 31);
    if marker.NoMatch? then Some(loaded)
    else if marker.value == "STRUCT" then
      var st := ScanStruct(marker.rest);
      if st.NoMatch? || |loaded.structs| >= MAX_ENTRIES then None
      else LoadFrom(st.rest, loaded.(structs := loaded.structs + [st.value]))
    else if marker.value == "SYMBOL" then
      var sym := ScanSymbol(marker.rest);
      if sym.NoMatch? || |loaded.symbols| >= MAX_ENTRIES then None
      else LoadFrom(sym.rest, loaded.(symbols := loaded.symbols + [sym.value]))
    else LoadFrom(marker.rest, loaded)
  }

  function Load(s: string): Option<Schema> {
    LoadFrom(s, Schema([], []))
  }

  /** A word of at most 31 characters at the front that is no marker is passed over. */
  lemma UnknownWordIsSkipped(lead: string, w: string, tail: string, loaded: Schema)
    requires IsLead(lead) && IsWord(w) && (tail == "" || IsSpace(tail[0])) && |w| <= 31
    requires w != "STRUCT" && w != "SYMBOL"
    ensures LoadFrom(lead + (w + tail), loaded) == LoadFrom(tail, loaded)
  {
    hide ScanToken;
    TokenReadsBackIff(lead, w, tail, 31);
  }

  // ----- what the file can carry -----

  predicate FieldFits(f: Field) {
    IsWord(f.name) && |f.name| <= 255 && f.offset <= INT_MAX && f.size <= INT_MAX && f.kind <= INT_MAX
  }

  predicate StructFits(st: StructSchema) {
    IsWord(st.name) && |st.name| <= 127 && |st.fields| <= INT_MAX &&
    forall i | 0 <= i < |st.fields| :: FieldFits(st.fields[i])
  }

  predicate SymbolFits(sym: Symbol) {
    IsWord(sym.name) && |sym.name| <= 127 && sym.address <= UINT_MAX
  }

  predicate Fits(schema: Schema) {
    && |schema.structs| <= MAX_ENTRIES && (forall i | 0 <= i < |schema.structs| :: StructFits(schema.structs[i]))
    && |schema.symbols| <= MAX_ENTRIES && (forall i | 0 <= i < |schema.symbols| :: SymbolFits(schema.symbols[i]))
  }

  // ----- reading back -----

  lemma FieldReadsBack(lead: string, f: Field, tail: string)
    requires FieldFits(f) && IsLead(lead)
    ensures ScanField(lead + (FieldLine(f) + tail)) == Match(f, "\n" + tail)
  {
    hide ScanToken, ScanDec, PrintDec, IsWord;
    var t3 := PrintDec(f.kind) + ("\n" + tail);
    var t2 := PrintDec(f.size) + (" " + t3);
    var t1 := PrintDec(f.offset) + (" " + t2);
    assert FieldLine(f) + tail == f.name + (" " + t1);
    assert IsLead(" ");
    TokenReadsBackIff(lead, f.name, " " + t1, 255);
    SpaceStops(' ', t2);
    SpaceStops(' ', t3);
    SpaceStops('\n', tail);
    DecReadsBack(" ", f.offset, " " + t2);
    DecReadsBack(" ", f.size, " " + t3);
    DecReadsBack(" ", f.kind, "\n" + tail);
  }

  lemma {:induction false} FieldsReadBack(fields: seq<Field>, tail: string)
    requires forall i | 0 <= i < |fields| :: FieldFits(fields[i])
    ensures ScanFields("\n" + (FieldLines(fields) + tail), |fields|) == Match(fields, "\n" + tail)
  {
    hide ScanField, FieldLine, FieldFits;
    if fields == [] {
      assert FieldLines(fields) + tail == tail;
    } else {
      var more := FieldLines(fields[1..]) + tail;
      assert FieldLines(fields) + tail == FieldLine(fields[0]) + more;
      assert IsLead("\n");
      FieldReadsBack("\n", fields[0], more);
      FieldsReadBack(fields[1..], tail);
      assert [fields[0]] + fields[1..] == fields;
    }
  }

  lemma StructReadsBack(st: StructSchema, tail: string)
    requires StructFits(st)
    ensures ScanStruct(" " + (st.name + (" " + (PrintDec(|st.fields|) + ("\n" + (FieldLines(st.fields) + tail)))))) ==
            Match(st, "\n" + tail)
  {
    hide ScanToken, ScanDec, PrintDec, ScanFields, FieldLines, IsWord;
    var t2 := "\n" + (FieldLines(st.fields) + tail);
    var t1 := PrintDec(|st.fields|) + t2;
    assert IsLead(" ");
    TokenReadsBackIff(" ", st.name, " " + t1, 127);
    SpaceStops('\n', FieldLines(st.fields) + tail);
    DecReadsBack(" ", |st.fields|, t2);
    FieldsReadBack(st.fields, tail);
  }

  lemma SymbolReadsBack(sym: Symbol, tail: string)
    requires SymbolFits(sym)
    ensures ScanSymbol(" " + (sym.name + (" " + (PrintHex0x(sym.address) + ("\n" + tail))))) == Match(sym, "\n" + tail)
  {
    hide ScanToken, ScanHex, PrintHex0x, IsWord;
    var t1 := PrintHex0x(sym.address) + ("\n" + tail);
    assert IsLead(" ");
    TokenReadsBackIff(" ", sym.name, " " + t1, 127);
    SpaceStops('\n', tail);
    Hex0xReadsBack(" ", sym.address, "\n" + tail);
  }

  lemma MarkerReadsBack(lead: string, marker: string, tail: string)
    requires IsLead(lead) && (marker == "STRUCT" || marker == "SYMBOL")
    ensures ScanToken(lead + (marker + (" " + tail)), 31) == Match(marker, " " + tail)
  {
    hide ScanToken;
    TokenReadsBackIff(lead, marker, " " + tail, 31);
  }

  lemma {:induction false} SymbolsReadBack(lead: string, symbols: seq<Symbol>, loaded: Schema)
    requires lead == "" || lead == "\n"
    requires |loaded.symbols| + |symbols| <= MAX_ENTRIES
    requires forall i | 0 <= i < |symbols| :: SymbolFits(symbols[i])
    ensures LoadFrom(lead + SymbolsText(symbols), loaded) == Some(loaded.(symbols := loaded.symbols + symbols))
    decreases |symbols|
  {
    hide SymbolFits, ScanToken, SymbolLine;
    if symbols == [] {
      assert lead + "" == lead;
      NothingLeft(lead);
      assert loaded.symbols + [] == loaded.symbols;
    } else {
      hide LoadFrom;
      var sym, rest := symbols[0], symbols[1..];
      OneSymbolLoads(lead, sym, SymbolsText(rest), loaded);
      var loaded' := loaded.(symbols := loaded.symbols + [sym]);
      SymbolsReadBack("\n", rest, loaded');
      assert loaded'.symbols + rest == loaded.symbols + symbols;
    }
  }

  lemma OneSymbolLoads(lead: string, sym: Symbol, more: string, loaded: Schema)
    requires (lead == "" || lead == "\n") && SymbolFits(sym) && |loaded.symbols| < MAX_ENTRIES
    ensures LoadFrom(lead + (SymbolLine(sym) + more), loaded) ==
            LoadFrom("\n" + more, loaded.(symbols := loaded.symbols + [sym]))
  {
    hide ScanSymbol, SymbolFits, ScanToken, PrintHex0x;
    var address := PrintHex0x(sym.address);
    var body := sym.name + (" " + (address + ("\n" + more)));
    SymbolTextOf(sym.name, address, more);
    MarkerReadsBack(lead, "SYMBOL", body);
    SymbolReadsBack(sym, more);
  }

  lemma SymbolTextOf(name: string, address: string, more: string)
    ensures ("SYMBOL" + (" " + (name + (" " + (address + "\n"))))) + more ==
            "SYMBOL" + (" " + (name + (" " + (address + ("\n" + more)))))
  {
  }

  lemma NothingLeft(lead: string)
    requires lead == "" || lead == "\n"
    ensures ScanToken(lead, 31) == NoMatch
  {
    if lead == "\n" {
      assert lead[1..] == "";
      assert SkipSpace(lead) == SkipSpace("");
    }
  }

  lemma {:induction false} StructsReadBack(lead: string, structs: seq<StructSchema>, symbols: seq<Symbol>, loaded: Schema)
    requires lead == "" || lead == "\n"
    requires |loaded.structs| + |structs| <= MAX_ENTRIES && |loaded.symbols| + |symbols| <= MAX_ENTRIES
    requires forall i | 0 <= i < |structs| :: StructFits(structs[i])
    requires forall i | 0 <= i < |symbols| :: SymbolFits(symbols[i])
    ensures LoadFrom(lead + (StructsText(structs) + SymbolsText(symbols)), loaded) ==
            Some(Schema(loaded.structs + structs, loaded.symbols + symbols))
    decreases |structs|
  {
    hide ScanStruct, SymbolFits, StructFits, StructsText, SymbolsText, ScanToken, LoadFrom;
    if structs == [] {
      NoStructsText(symbols);
      SymbolsReadBack(lead, symbols, loaded);
      assert loaded.structs + [] == loaded.structs;
    } else {
      var st, rest := structs[0], structs[1..];
      OneStructLoads(lead, st, StructsText(rest) + SymbolsText(symbols), loaded);
      StructsTextOf(structs, SymbolsText(symbols));
      var loaded' := loaded.(structs := loaded.structs + [st]);
      StructsReadBack("\n", rest, symbols, loaded');
      assert loaded'.structs + rest == loaded.structs + structs;
    }
  }

  lemma NoStructsText(symbols: seq<Symbol>)
    ensures StructsText([]) + SymbolsText(symbols) == SymbolsText(symbols)
  {
  }

  lemma StructsTextOf(structs: seq<StructSchema>, tail: string)
    requires structs != []
    ensures StructsText(structs) + tail == StructText(structs[0]) + (StructsText(structs[1..]) + tail)
  {
    hide StructText;
  }

  /** A structure in front of more text is loaded, and loading goes on behind it. */
  lemma OneStructLoads(lead: string, st: StructSchema, more: string, loaded: Schema)
    requires (lead == "" || lead == "\n") && StructFits(st) && |loaded.structs| < MAX_ENTRIES
    ensures LoadFrom(lead + (StructText(st) + more), loaded) ==
            LoadFrom("\n" + more, loaded.(structs := loaded.structs + [st]))
  {
    hide ScanStruct, StructFits, ScanToken, PrintDec, FieldLines;
    var count := PrintDec(|st.fields|);
    var body := st.name + (" " + (count + ("\n" + (FieldLines(st.fields) + more))));
    StructTextOf(st.name, count, FieldLines(st.fields), more);
    MarkerReadsBack(lead, "STRUCT", body);
    StructReadsBack(st, more);
  }

  lemma StructTextOf(name: string, count: string, lines: string, more: string)
    ensures ("STRUCT" + (" " + (name + (" " + (count + ("\n" + lines)))))) + more ==
            "STRUCT" + (" " + (name + (" " + (count + ("\n" + (lines + more))))))
  {
  }

  lemma FittingSchemaLoads(schema: Schema)
    requires Fits(schema)
    ensures Load(Print(schema)) == Some(schema)
  {
    hide LoadFrom, StructFits, SymbolFits, StructsText, SymbolsText;
    if schema.structs == [] && schema.symbols == [] {
      SymbolsReadBack("\n", [], schema);
      assert "\n" + SymbolsText([]) == "\n" by { NoSymbolsNoText(); }
      assert schema == Schema([], []);
    } else {
      StructsReadBack("", schema.structs, schema.symbols, Schema([], []));
      assert "" + Print(schema) == Print(schema);
      assert [] + schema.structs == schema.structs && [] + schema.symbols == schema.symbols;
    }
  }

  lemma NoSymbolsNoText()
    ensures SymbolsText([]) == ""
  {
  }

  // ----- and only what fits comes back -----

  /** What conversions of these widths can have read. */
  predicate NameRead(name: string, max: nat) {
    IsWord(name) && |name| <= max
  }

  predicate StructRead(st: StructSchema) {
    NameRead(st.name, 127) && forall i | 0 <= i < |st.fields| :: NameRead(st.fields[i].name, 255)
  }

  predicate SchemaRead(schema: Schema) {
    && |schema.structs| <= MAX_ENTRIES && (forall i | 0 <= i < |schema.structs| :: StructRead(schema.structs[i]))
    && |schema.symbols| <= MAX_ENTRIES && (forall i | 0 <= i < |schema.symbols| :: NameRead(schema.symbols[i].name, 127))
  }

  lemma {:induction false} WordRunHasNoSpace(t: string, i: nat)
    requires i < WordRun(t)
    ensures !IsSpace(t[i])
  {
    if i > 0 {
      WordRunHasNoSpace(t[1..], i - 1);
    }
  }

  lemma TokenIsNameRead(s: string, max: nat)
    requires max > 0
    ensures ScanToken(s, max).Match? ==> NameRead(ScanToken(s, max).value, max)
  {
    var t := SkipSpace(s);
    forall i: nat | i < WordRun(t) ensures !IsSpace(t[i]) {
      WordRunHasNoSpace(t, i);
    }
  }

  lemma {:induction false} FieldsAreRead(s: string, n: nat)
    ensures ScanFields(s, n).Match? ==>
              forall i | 0 <= i < |ScanFields(s, n).value| :: NameRead(ScanFields(s, n).value[i].name, 255)
    decreases n
  {
    hide ScanToken, ScanDec, NameRead;
    if n > 0 {
      TokenIsNameRead(s, 255);
      if ScanField(s).Match? {
        FieldsAreRead(ScanField(s).rest, n - 1);
      }
    }
  }

  lemma StructIsRead(s: string)
    ensures ScanStruct(s).Match? ==> StructRead(ScanStruct(s).value)
  {
    hide ScanToken, ScanDec, NameRead, ScanFields;
    TokenIsNameRead(s, 127);
    if ScanToken(s, 127).Match? && ScanDec(ScanToken(s, 127).rest).Match? {
      var count := ScanDec(ScanToken(s, 127).rest);
      FieldsAreRead(count.rest, count.value);
    }
  }

  lemma SymbolIsRead(s: string)
    ensures ScanSymbol(s).Match? ==> NameRead(ScanSymbol(s).value.name, 127)
  {
    hide ScanToken, ScanHex, NameRead;
    TokenIsNameRead(s, 127);
  }

  /** Whatever the text, what is loaded respects the table sizes and the widths of the conversions. */
  lemma {:induction false} LoadedIsRead(s: string, loaded: Schema)
    requires SchemaRead(loaded)
    ensures LoadFrom(s, loaded).Some? ==> SchemaRead(LoadFrom(s, loaded).value)
    decreases |s|
  {
    hide ScanToken, ScanStruct, ScanSymbol, StructRead, NameRead;
    var marker := ScanToken(s, 31);
    if marker.Match? {
      if marker.value == "STRUCT" {
        var st := ScanStruct(marker.rest);
        StructIsRead(marker.rest);
        if st.Match? && |loaded.structs| < MAX_ENTRIES {
          LoadedIsRead(st.rest, loaded.(structs := loaded.structs + [st.value]));
        }
      } else if marker.value == "SYMBOL" {
        var sym := ScanSymbol(marker.rest);
        SymbolIsRead(marker.rest);
        if sym.Match? && |loaded.symbols| < MAX_ENTRIES {
          LoadedIsRead(sym.rest, loaded.(symbols := loaded.symbols + [sym.value]));
        }
      } else {
        LoadedIsRead(marker.rest, loaded);
      }
    }
  }

  /** The numbers of a schema fit the fields they are converted into. */
  predicate NumbersFit(schema: Schema) {
    && (forall i | 0 <= i < |schema.structs| :: StructNumbersFit(schema.structs[i]))
    && forall i | 0 <= i < |schema.symbols| :: schema.symbols[i].address <= UINT_MAX
  }

  predicate StructNumbersFit(st: StructSchema) {
    && |st.fields| <= INT_MAX
    && forall i | 0 <= i < |st.fields| ::
         st.fields[i].offset <= INT_MAX && st.fields[i].size <= INT_MAX && st.fields[i].kind <= INT_MAX
  }

  /** A printed schema loads as itself if and only if it has at most 64 structures and symbols, and its
      names are words that fit their conversions. */
  lemma PrintedSchemaLoads(schema: Schema)
    requires NumbersFit(schema)
    ensures Load(Print(schema)) == Some(schema) <==> Fits(schema)
  {
    hide Print, LoadFrom;
    if Fits(schema) {
      FittingSchemaLoads(schema);
    }
    if Load(Print(schema)) == Some(schema) {
      LoadedIsRead(Print(schema), Schema([], []));
      ReadFits(schema);
    }
  }

  lemma ReadFits(schema: Schema)
    requires SchemaRead(schema) && NumbersFit(schema)
    ensures Fits(schema)
  {
    hide IsWord;
    forall i | 0 <= i < |schema.structs| ensures StructFits(schema.structs[i]) {
      assert StructRead(schema.structs[i]) && StructNumbersFit(schema.structs[i]);
      var fields := schema.structs[i].fields;
      assert forall j | 0 <= j < |fields| :: NameRead(fields[j].name, 255) && FieldFits(fields[j]);
    }
    assert forall i | 0 <= i < |schema.symbols| :: NameRead(schema.symbols[i].name, 127) && SymbolFits(schema.symbols[i]);
  }

  // ----- lookups -----

  /** The first structure with a name. */
  function StructNamed(structs: seq<StructSchema>, name: string): Option<StructSchema> {
    if structs == [] then None
    else if structs[0].name == name then Some(structs[0])
    else StructNamed(structs[1..], name)
  }

  /** inspct_get_field_offset: 0 stands for not found, as well as for offset 0. */
  function FieldOffset(schema: Schema, structName: string, fieldName: string): nat {
    match StructNamed(schema.structs, structName)
    case None => 0
    case Some(st) =>
      match FieldNamed(st.fields, fieldName)
      case None => 0
      case Some(f) => f.offset
  }

  function SymbolAddress(symbols: seq<Symbol>, name: string): nat {
    if symbols == [] then 0
    else if symbols[0].name == name then symbols[0].address
    else SymbolAddress(symbols[1..], name)
  }

  predicate FirstStruct(structs: seq<StructSchema>, i: int, name: string) {
    0 <= i < |structs| && structs[i].name == name && forall k | 0 <= k < i :: structs[k].name != name
  }

  predicate FirstField(fields: seq<Field>, j: int, name: string) {
    0 <= j < |fields| && fields[j].name == name && forall k | 0 <= k < j :: fields[k].name != name
  }

  predicate FirstSymbol(symbols: seq<Symbol>, i: int, name: string) {
    0 <= i < |symbols| && symbols[i].name == name && forall k | 0 <= k < i :: symbols[k].name != name
  }

  lemma {:induction false} SymbolAt(symbols: seq<Symbol>, k: nat)
    requires k < |symbols| && forall i, j | 0 <= i < j < |symbols| :: symbols[i].name != symbols[j].name
    ensures SymbolAddress(symbols, symbols[k].name) == symbols[k].address
  {
    if k > 0 {
      SymbolAt(symbols[1..], k - 1);
    }
  }

  lemma {:induction false} StructNamedIn(structs: seq<StructSchema>, more: seq<StructSchema>, name: string)
    ensures StructNamed(structs + more, name) ==
            if Parsed(structs, name) then StructNamed(structs, name) else StructNamed(more, name)
    ensures StructNamed(structs, name).Some? <==> Parsed(structs, name)
  {
    if structs == [] {
      assert structs + more == more;
    } else {
      assert (structs + more)[1..] == structs[1..] + more;
      StructNamedIn(structs[1..], more, name);
      assert Parsed(structs, name) <==> structs[0].name == name || Parsed(structs[1..], name) by {
        if Parsed(structs, name) && structs[0].name != name {
          var i :| 0 <= i < |structs| && structs[i].name == name;
          assert structs[1..][i - 1].name == name;
        }
        if Parsed(structs[1..], name) {
          var i :| 0 <= i < |structs[1..]| && structs[1..][i].name == name;
          assert structs[i + 1].name == name;
        }
      }
    }
  }

  /** A wanted structure is the flattening of its first entry. */
  lemma {:induction false} WantedIsFirstEntry(dies: seq<StructDie>, targets: set<string>, k: nat)
    requires k < |dies| && dies[k].name in targets && forall i | 0 <= i < k :: dies[i].name != dies[k].name
    ensures StructNamed(Wanted(dies, targets), dies[k].name) ==
            Some(StructSchema(dies[k].name, Flatten(dies[k].members, "", 0)))
  {
    hide Flatten, Parsed;
    var init, last, name := dies[..|dies| - 1], dies[|dies| - 1], dies[k].name;
    var st := StructSchema(last.name, Flatten(last.members, "", 0));
    StructNamedIn(Wanted(init, targets), [st], name);
    if k == |dies| - 1 {
      NotWantedYet(init, targets, name);
    } else {
      WantedIsFirstEntry(init, targets, k);
    }
  }

  /** The first entry with a name, the number of entries if there is none. */
  function FirstEntry(dies: seq<StructDie>, name: string): (k: nat)
    ensures k <= |dies|
    ensures k < |dies| ==> dies[k].name == name
    ensures forall i | 0 <= i < k :: dies[i].name != name
  {
    if dies == [] || dies[0].name == name then 0 else 1 + FirstEntry(dies[1..], name)
  }

  /** Wanted structures only, each once, in the order of their first entries. */
  ghost predicate WantedInOrder(structs: seq<StructSchema>, dies: seq<StructDie>, targets: set<string>) {
    && (forall i | 0 <= i < |structs| :: structs[i].name in targets && FirstEntry(dies, structs[i].name) < |dies|)
    && (forall i, j | 0 <= i < j < |structs| ::
          FirstEntry(dies, structs[i].name) < FirstEntry(dies, structs[j].name))
  }

  /** Nothing but wanted structures is taken. */
  lemma {:induction false} OnlyWantedInOrder(dies: seq<StructDie>, targets: set<string>)
    ensures WantedInOrder(Wanted(dies, targets), dies, targets)
  {
    hide Flatten;
    if dies != [] {
      var init, last := dies[..|dies| - 1], dies[|dies| - 1];
      var before := Wanted(init, targets);
      assert dies == init + [last];
      OnlyWantedInOrder(init, targets);
      forall i | 0 <= i < |before| ensures FirstEntry(dies, before[i].name) == FirstEntry(init, before[i].name) {
        FirstEntryStays(init, last, before[i].name);
      }
      if last.name in targets && !Parsed(before, last.name) {
        NewNameIsNew(init, last, targets);
      }
    }
  }

  lemma FirstEntryStays(init: seq<StructDie>, last: StructDie, name: string)
    requires FirstEntry(init, name) < |init|
    ensures FirstEntry(init + [last], name) == FirstEntry(init, name)
  {
    var k, m := FirstEntry(init, name), FirstEntry(init + [last], name);
    assert (init + [last])[k].name == name;
    assert m <= k && init[m] == (init + [last])[m];
  }

  lemma NewNameIsNew(init: seq<StructDie>, last: StructDie, targets: set<string>)
    requires last.name in targets && !Parsed(Wanted(init, targets), last.name)
    ensures FirstEntry(init + [last], last.name) == |init|
  {
    var m := FirstEntry(init + [last], last.name);
    assert (init + [last])[|init|] == last;
    if m < |init| {
      hide Flatten, Wanted;
      assert init[m].name == last.name && forall i | 0 <= i < m :: init[i] == (init + [last])[i];
      WantedIsFirstEntry(init, targets, m);
      StructNamedIn(Wanted(init, targets), [], last.name);
      assert false;
    }
  }

  lemma {:induction false} NotWantedYet(dies: seq<StructDie>, targets: set<string>, name: string)
    requires forall i | 0 <= i < |dies| :: dies[i].name != name
    ensures !Parsed(Wanted(dies, targets), name)
  {
    if dies != [] {
      NotWantedYet(dies[..|dies| - 1], targets, name);
    }
  }

  /** From debug information to lookup: for each wanted structure and each path to a leaf in its first
      entry, the loaded file gives the sum of the locations recorded for the members along the path. */
  lemma LoadedOffsetIsTheSum(dies: seq<StructDie>, targets: set<string>, symbols: seq<Symbol>, k: nat,
                             path: seq<string>, ms: seq<Member>, loaded: Schema)
    requires Fits(Schema(Wanted(dies, targets), symbols))
    requires Load(Print(Schema(Wanted(dies, targets), symbols))) == Some(loaded)
    requires k < |dies| && dies[k].name in targets && forall i | 0 <= i < k :: dies[i].name != dies[k].name
    requires WellNamed(dies[k].members) && Chain(dies[k].members, path, ms)
    ensures FieldOffset(loaded, dies[k].name, Join(path)) == LocationSum(ms)
  {
    hide Fits, Load, Print, Wanted, Flatten, WellNamed, Chain, Join, MapToCType, LocationSum;
    FittingSchemaLoads(Schema(Wanted(dies, targets), symbols));
    WantedIsFirstEntry(dies, targets, k);
    OffsetIsTheSum(dies[k].members, path, ms);
  }

  /** Every symbol of the schema is found at its address. */
  lemma LoadedSymbolIsFound(schema: Schema, k: nat, loaded: Schema)
    requires Fits(schema) && Load(Print(schema)) == Some(loaded) && k < |schema.symbols|
    requires forall i, j | 0 <= i < j < |schema.symbols| :: schema.symbols[i].name != schema.symbols[j].name
    ensures SymbolAddress(loaded.symbols, schema.symbols[k].name) == schema.symbols[k].address
  {
    hide Fits, Load, Print;
    FittingSchemaLoads(schema);
    SymbolAt(schema.symbols, k);
  }

  // ----- the loaded tables -----

  class Inspector {
    var schemas: seq<StructSchema>
    var symbols: seq<Symbol>

    ghost function Model(): Schema
      reads this
    {
      Schema(schemas, symbols)
    }

    /** load_fastdyn_schemas; false for a text the original's tables or conversions cannot take. */
    method LoadSchemas(text: string) returns (ok: bool)
      modifies this
      ensures ok <==> Load(text).Some?
      ensures ok ==> Model() == Load(text).value
    {
      hide ScanToken, ScanStruct, ScanSymbol;
      schemas, symbols := [], [];
      var rest := text;
      var marker := ScanToken(rest, 31);
      while marker.Match?
        invariant marker == ScanToken(rest, 31)
        invariant LoadFrom(rest, Model()) == Load(text)
        decreases |rest|
      {
        rest := marker.rest;
        if marker.value == "STRUCT" {
          var st := ScanStruct(rest);
          if st.NoMatch? || |schemas| >= MAX_ENTRIES {
            return false;
          }
          schemas := schemas + [st.value];
          rest := st.rest;
        } else if marker.value == "SYMBOL" {
          var sym := ScanSymbol(rest);
          if sym.NoMatch? || |symbols| >= MAX_ENTRIES {
            return false;
          }
          symbols := symbols + [sym.value];
          rest := sym.rest;
        }
        marker := ScanToken(rest, 31);
      }
      ok := true;
    }

    /** inspct_get_field_offset */
    method GetFieldOffset(structName: string, fieldName: string) returns (offset: nat)
      ensures offset == FieldOffset(Model(), structName, fieldName)
      ensures forall i, j :: FirstStruct(schemas, i, structName) && FirstField(schemas[i].fields, j, fieldName) ==>
                offset == schemas[i].fields[j].offset
      ensures (forall i, j :: FirstStruct(schemas, i, structName) ==> !FirstField(schemas[i].fields, j, fieldName)) ==>
                offset == 0
    {
      for i := 0 to |schemas|
        invariant StructNamed(schemas, structName) == StructNamed(schemas[i..], structName)
        invariant forall k | 0 <= k < i :: schemas[k].name != structName
      {
        if schemas[i].name == structName {
          assert FirstStruct(schemas, i, structName);
          var fields := schemas[i].fields;
          for j := 0 to |fields|
            invariant FieldNamed(fields, fieldName) == FieldNamed(fields[j..], fieldName)
            invariant forall k | 0 <= k < j :: fields[k].name != fieldName
          {
            if fields[j].name == fieldName {
              assert FirstField(fields, j, fieldName);
              return fields[j].offset;
            }
          }
          return 0;
        }
      }
      offset := 0;
    }

    /** inspct_get_symbol */
    method GetSymbol(name: string) returns (address: nat)
      ensures address == SymbolAddress(symbols, name)
      ensures forall i :: FirstSymbol(symbols, i, name) ==> address == symbols[i].address
      ensures (forall i | 0 <= i < |symbols| :: symbols[i].name != name) ==> address == 0
    {
      for i := 0 to |symbols|
        invariant SymbolAddress(symbols, name) == SymbolAddress(symbols[i..], name)
        invariant forall k | 0 <= k < i :: symbols[k].name != name
      {
        if symbols[i].name == name {
          return symbols[i].address;
        }
      }
      address := 0;
    }
  }
}
