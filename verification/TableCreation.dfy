/**
 Printing CREATE TABLE for a CreateStoreOperation (NDBMessageExecutor.cpp), and reading the text
 back to show which columns, keys and partitioning it declares.
 */
module TableCreation {
  import opened Wrappers
  import opened Wire
  import opened OperationCodec
  import opened NdbTables

  // ---------------------------------------------------------------- text

  function Ascii(s: string): (bs: Bytes)
    ensures |bs| == |s|
    ensures forall i :: 0 <= i < |s| ==> bs[i] == s[i] as int % 256
  {
    seq(|s|, i requires 0 <= i < |s| => s[i] as int % 256)
  }

  /** Letters, digits and the underscore: what an identifier without quotes is made of. */
  predicate IsWordByte(b: byte) {
    65 <= b <= 90 || 97 <= b <= 122 || 48 <= b <= 57 || b == 95
  }

  predicate IsWord(w: Bytes) { forall b :: b in w ==> IsWordByte(b) }

  /** The longest word at the head of the text. */
  function ReadWord(bs: Bytes): (r: (Bytes, Bytes))
    ensures |r.0| + |r.1| == |bs|
  {
    if bs == [] || !IsWordByte(bs[0]) then ([], bs)
    else
      var (w, rest) := ReadWord(bs[1..]);
      ([bs[0]] + w, rest)
  }

  function Expect(literal: Bytes, bs: Bytes): (r: Option<Bytes>)
    ensures r.Some? ==> |r.value| + |literal| == |bs|
  {
    if literal <= bs then Some(bs[|literal|..]) else None
  }

  lemma {:induction false} WordReads(w: Bytes, rest: Bytes)
    requires IsWord(w) && (rest == [] || !IsWordByte(rest[0]))
    ensures ReadWord(w + rest) == (w, rest)
  {
    if w == [] {
      assert w + rest == rest;
    } else {
      assert w[0] in w;
      assert (w + rest)[1..] == w[1..] + rest;
      WordReads(w[1..], rest);
      assert [w[0]] + w[1..] == w;
    }
  }

  lemma LiteralReads(literal: Bytes, rest: Bytes)
    ensures Expect(literal, literal + rest) == Some(rest)
  {
  }

  // ---------------------------------------------------------------- numbers

  /** to_string of a non-negative and of any int. */
  function PrintNat(n: nat): Bytes {
    if n < 10 then [48 + n] else PrintNat(n / 10) + [48 + n % 10]
  }

  function PrintInt(v: int): Bytes {
    if v < 0 then Ascii("-") + PrintNat(-v) else PrintNat(v)
  }

  function ReadDigits(bs: Bytes, value: int): (int, Bytes) {
    if bs != [] && 48 <= bs[0] <= 57 then ReadDigits(bs[1..], 10 * value + (bs[0] - 48)) else (value, bs)
  }

  function ReadInt(bs: Bytes): (int, Bytes) {
    match Expect(Ascii("-"), bs)
    case Some(digits) => var (v, rest) := ReadDigits(digits, 0); (-v, rest)
    case None => ReadDigits(bs, 0)
  }

  lemma {:induction false} DigitsRead(n: nat, rest: Bytes)
    ensures PrintNat(n) != [] && 48 <= PrintNat(n)[0] <= 57
    ensures ReadDigits(PrintNat(n) + rest, 0) == ReadDigits(rest, n)
  {
    if n < 10 {
      assert (PrintNat(n) + rest)[1..] == rest;
    } else {
      var digit: Bytes := [48 + n % 10];
      assert PrintNat(n) + rest == PrintNat(n / 10) + (digit + rest);
      DigitsRead(n / 10, digit + rest);
      assert (digit + rest)[1..] == rest;
    }
  }

  lemma IntReads(v: int, rest: Bytes)
    requires rest != [] && !(48 <= rest[0] <= 57)
    ensures ReadInt(PrintInt(v) + rest) == (v, rest)
  {
    if v < 0 {
      var digits := PrintNat(-v);
      assert PrintInt(v) + rest == Ascii("-") + (digits + rest);
      LiteralReads(Ascii("-"), digits + rest);
      DigitsRead(-v, rest);
    } else {
      DigitsRead(v, rest);
      assert Ascii("-")[0] == 45;
      assert (PrintInt(v) + rest)[0] != 45;
    }
  }

  // ---------------------------------------------------------------- what a table declaration says

  const BOOL: int32 := 1
  const INT32: int32 := 7
  const UINT32: int32 := 8
  const INT64: int32 := 9
  const UINT64: int32 := 10
  const FLOAT: int32 := 11
  const DOUBLE: int32 := 12
  const CHAR: int32 := 14
  const VARCHAR: int32 := 23
  const VARBINARY: int32 := 24

  /** getTypeName. */
  function TypeName(typ: int32): Bytes {
    if typ == BOOL then Ascii("Tinyint")
    else if typ == INT32 then Ascii("Int")
    else if typ == UINT32 then Ascii("Int Unsigned")
    else if typ == INT64 then Ascii("Bigint")
    else if typ == UINT64 then Ascii("Bigint Unsigned")
    else if typ == FLOAT then Ascii("Float")
    else if typ == DOUBLE then Ascii("Double")
    else if typ == CHAR then Ascii("Char")
    else if typ == VARCHAR then Ascii("Varchar")
    else if typ == VARBINARY then Ascii("Varbinary")
    else Ascii("Int")
  }

  datatype ColumnDecl = ColumnDecl(name: Bytes, typeName: Bytes, length: Option<int>)

  datatype TableDecl = TableDecl(
    name: Bytes,
    columns: seq<ColumnDecl>,
    primaryKey: seq<Bytes>,
    pruneIndex: seq<Bytes>,
    partitioning: seq<Bytes>)

  function TypeOf(c: ColumnInfo): int32 { c.typ.GetOr(BOOL) }

  /** Variable lengths below 255 become 256, a CHAR keeps its length, other types have none. */
  function LengthOf(c: ColumnInfo): Option<int> {
    if c.length.None? then None
    else if TypeOf(c) == VARCHAR || TypeOf(c) == VARBINARY then
      Some(if c.length.value < 255 then 256 else c.length.value)
    else if TypeOf(c) == CHAR then Some(c.length.value)
    else None
  }

  function DeclOf(c: ColumnInfo): ColumnDecl {
    ColumnDecl(c.name.GetOr([]), TypeName(TypeOf(c)), LengthOf(c))
  }

  function DeclsOf(columns: seq<ColumnInfo>): (decls: seq<ColumnDecl>)
    ensures |decls| == |columns|
  {
    seq(|columns|, i requires 0 <= i < |columns| => DeclOf(columns[i]))
  }

  /** The dictionary entry of the new table. A key flag counts when it is present, true or false. */
  function InfoOf(columns: seq<ColumnInfo>): TableInfo {
    TableInfo(seq(|columns|, i requires 0 <= i < |columns| =>
      ColumnDef(columns[i].name.GetOr([]), TypeOf(columns[i]), columns[i].primaryKey.Some?,
          columns[i].distributionKey.Some?)))
  }

  function StoreNameOf(op: StoreDefinition): Bytes {
    op.storeInfo.GetOr(NO_STORE_INFO).storeName.GetOr([])
  }

  function TableOf(op: StoreDefinition): TableDecl {
    var info := InfoOf(op.columns);
    TableDecl(StoreNameOf(op), DeclsOf(op.columns), info.PrimaryKeys(), info.DistributionKeys(),
        info.DistributionKeys())
  }

  // ---------------------------------------------------------------- printing

  function PrintLength(length: Option<int>): Bytes {
    if length.Some? then Ascii("(") + PrintInt(length.value) + Ascii(")") else []
  }

  function PrintColumn(c: ColumnDecl): Bytes {
    c.name + Ascii(" ") + c.typeName + PrintLength(c.length) + Ascii(" NOT NULL, \n")
  }

  function PrintColumns(columns: seq<ColumnDecl>): Bytes {
    if columns == [] then [] else PrintColumn(columns[0]) + PrintColumns(columns[1..])
  }

  /** Names with commas between them and a closing parenthesis after the last. */
  function PrintNames(names: seq<Bytes>): Bytes {
    if names == [] then []
    else if |names| == 1 then names[0] + Ascii(")")
    else names[0] + Ascii(",") + PrintNames(names[1..])
  }

  function PrintKeys(t: TableDecl): Bytes {
    Ascii("PRIMARY KEY (") + PrintNames(t.primaryKey)
    + Ascii(",\nINDEX VOLODB_PRUNE_INDEX USING BTREE (") + PrintNames(t.pruneIndex)
    + Ascii(")\nENGINE=NDB\n") + Ascii("PARTITION BY KEY (") + PrintNames(t.partitioning)
  }

  function PrintTable(t: TableDecl): Bytes {
    Ascii("CREATE TABLE ") + t.name + Ascii("(\n") + PrintColumns(t.columns) + PrintKeys(t)
  }

  datatype Statement = Refused(why: Bytes) | Issued(text: Bytes)

  function NamesAt(columns: seq<ColumnInfo>, indexes: seq<nat>): (names: seq<Bytes>)
    requires forall k :: k in indexes ==> k < |columns|
    ensures |names| == |indexes|
  {
    seq(|indexes|, i requires 0 <= i < |indexes| => assert indexes[i] in indexes; columns[indexes[i]].name.GetOr([]))
  }

  method PrintNameList(columns: seq<ColumnInfo>, indexes: seq<nat>, text: Bytes) returns (longer: Bytes)
    requires forall k :: k in indexes ==> k < |columns|
    ensures longer == text + PrintNames(NamesAt(columns, indexes))
  {
    ghost var names := NamesAt(columns, indexes);
    longer := text;
    var i := 0;
    assert names[0..] == names;
    while i < |indexes|
      invariant i <= |indexes|
      invariant longer + PrintNames(names[i..]) == text + PrintNames(names)
    {
      assert indexes[i] in indexes;
      NamesGoOn(longer, names, i);
      longer := longer + columns[indexes[i]].name.GetOr([]);
      if i != |indexes| - 1 {
        longer := longer + Ascii(",");
      } else {
        longer := longer + Ascii(")");
      }
      i := i + 1;
    }
    assert names[i..] == [] && longer + [] == longer;
  }

  lemma NamesGoOn(text: Bytes, names: seq<Bytes>, i: nat)
    requires i < |names|
    ensures text + PrintNames(names[i..])
            == text + names[i] + Ascii(if i != |names| - 1 then "," else ")") + PrintNames(names[i + 1..])
  {
    assert names[i..][1..] == names[i + 1..];
    if i == |names| - 1 {
      assert names[i + 1..] == [];
      ConcatAssociates(text, names[i], Ascii(")"));
      assert text + names[i] + Ascii(")") + [] == text + names[i] + Ascii(")");
    } else {
      ConcatAssociates(text, names[i], Ascii(",") + PrintNames(names[i + 1..]));
      ConcatAssociates(text + names[i], Ascii(","), PrintNames(names[i + 1..]));
      ConcatAssociates(names[i], Ascii(","), PrintNames(names[i + 1..]));
    }
  }

  method PrintColumnText(c: ColumnInfo, text: Bytes) returns (longer: Bytes)
    ensures longer == text + PrintColumn(DeclOf(c))
  {
    var line := c.name.GetOr([]) + Ascii(" ") + TypeName(TypeOf(c));
    if c.length.Some? {
      if TypeOf(c) == VARCHAR || TypeOf(c) == VARBINARY {
        line := line + (Ascii("(") + PrintInt(if c.length.value < 255 then 256 else c.length.value) + Ascii(")"));
      } else if TypeOf(c) == CHAR {
        line := line + (Ascii("(") + PrintInt(c.length.value) + Ascii(")"));
      }
    }
    assert c.name.GetOr([]) + Ascii(" ") + TypeName(TypeOf(c)) + [] == c.name.GetOr([]) + Ascii(" ")
        + TypeName(TypeOf(c));
    line := line + Ascii(" NOT NULL, \n");
    longer := text + line;
  }

  /** The column loop: the column lines, and the indexes of the columns with each key flag. */
  method PrintColumnList(columns: seq<ColumnInfo>, text: Bytes)
    returns (longer: Bytes, primary: seq<nat>, distribution: seq<nat>)
    ensures longer == text + PrintColumns(DeclsOf(columns))
    ensures forall k :: k in primary || k in distribution ==> k < |columns|
    ensures NamesAt(columns, primary) == InfoOf(columns).PrimaryKeys()
    ensures NamesAt(columns, distribution) == InfoOf(columns).DistributionKeys()
  {
    hide DeclOf;
    hide PrintColumn;
    hide Select;
    ghost var decls := DeclsOf(columns);
    longer, primary, distribution := text, [], [];
    NoKeysYet(columns[..0]);
    var i := 0;
    assert decls[0..] == decls;
    while i < |columns|
      invariant i <= |columns|
      invariant longer + PrintColumns(decls[i..]) == text + PrintColumns(decls)
      invariant forall k :: k in primary || k in distribution ==> k < i
      invariant NamesAt(columns, primary) == InfoOf(columns[..i]).PrimaryKeys()
      invariant NamesAt(columns, distribution) == InfoOf(columns[..i]).DistributionKeys()
    {
      ColumnsGoOn(longer, decls, i);
      longer := PrintColumnText(columns[i], longer);
      KeysGoOn(columns, i);
      if columns[i].primaryKey.Some? {
        primary := primary + [i];
      }
      if columns[i].distributionKey.Some? {
        distribution := distribution + [i];
      }
      i := i + 1;
    }
    assert decls[i..] == [] && longer + [] == longer;
    assert columns[..i] == columns;
  }

  lemma ColumnsGoOn(text: Bytes, decls: seq<ColumnDecl>, i: nat)
    requires i < |decls|
    ensures text + PrintColumns(decls[i..]) == text + PrintColumn(decls[i]) + PrintColumns(decls[i + 1..])
  {
    assert decls[i..][1..] == decls[i + 1..];
    ConcatAssociates(text, PrintColumn(decls[i]), PrintColumns(decls[i + 1..]));
  }

  lemma NoKeysYet(columns: seq<ColumnInfo>)
    requires columns == []
    ensures InfoOf(columns).PrimaryKeys() == [] && InfoOf(columns).DistributionKeys() == []
  {
  }

  lemma KeysGoOn(columns: seq<ColumnInfo>, i: nat)
    requires i < |columns|
    ensures var name := columns[i].name.GetOr([]);
            && InfoOf(columns[..i + 1]).PrimaryKeys()
               == InfoOf(columns[..i]).PrimaryKeys() + (if columns[i].primaryKey.Some? then [name] else [])
            && InfoOf(columns[..i + 1]).DistributionKeys()
               == InfoOf(columns[..i]).DistributionKeys() + if columns[i].distributionKey.Some? then [name] else []
  {
    var before, after := InfoOf(columns[..i]).columns, InfoOf(columns[..i + 1]).columns;
    assert after == before + [after[i]];
    SelectLast(before, after[i], (c: ColumnDef) => c.isPrimaryKey);
    SelectLast(before, after[i], (c: ColumnDef) => c.isDistributionKey);
  }

  lemma SelectLast(columns: seq<ColumnDef>, c: ColumnDef, test: ColumnDef -> bool)
    ensures Names(Select(columns + [c], test)) == Names(Select(columns, test)) + if test(c) then [c.name] else []
  {
    assert (columns + [c])[..|columns|] == columns;
  }

  // ---------------------------------------------------------------- key columns by their flags

  /** The key names of a kind are those of the columns that have the flag of that kind, in order. */
  lemma {:induction false} FlagsAreSelected(columns: seq<ColumnInfo>, test: ColumnDef -> bool, flag: ColumnInfo -> bool)
    requires forall c :: c in columns ==>
               flag(c) == test(ColumnDef(c.name.GetOr([]), TypeOf(c), c.primaryKey.Some?, c.distributionKey.Some?))
    ensures var (names, flagged) := (Names(Select(InfoOf(columns).columns, test)), Select(columns, flag));
            |names| == |flagged| && forall k :: 0 <= k < |flagged| ==> names[k] == flagged[k].name.GetOr([])
  {
    if columns != [] {
      var last := |columns| - 1;
      assert columns[last] in columns && columns == columns[..last] + [columns[last]];
      assert InfoOf(columns).columns[..last] == InfoOf(columns[..last]).columns;
      FlagsAreSelected(columns[..last], test, flag);
    }
  }

  lemma KeysAreFlagged(op: StoreDefinition)
    ensures var (names, flagged) := (TableOf(op).primaryKey, Select(op.columns, (c: ColumnInfo) => c.primaryKey.Some?));
            |names| == |flagged| && forall k :: 0 <= k < |flagged| ==> names[k] == flagged[k].name.GetOr([])
    ensures var (names, flagged) := (TableOf(op).partitioning,
                                     Select(op.columns, (c: ColumnInfo) => c.distributionKey.Some?));
            |names| == |flagged| && forall k :: 0 <= k < |flagged| ==> names[k] == flagged[k].name.GetOr([])
  {
    hide DeclsOf;
    FlagsAreSelected(op.columns, (c: ColumnDef) => c.isPrimaryKey, (c: ColumnInfo) => c.primaryKey.Some?);
    FlagsAreSelected(op.columns, (c: ColumnDef) => c.isDistributionKey, (c: ColumnInfo) => c.distributionKey.Some?);
  }

  /** There are none of a kind exactly when no column has the flag of that kind, true or false. */
  lemma KeyListsAreEmpty(op: StoreDefinition)
    ensures TableOf(op).primaryKey == [] <==> forall c :: c in op.columns ==> c.primaryKey.None?
    ensures TableOf(op).partitioning == [] <==> forall c :: c in op.columns ==> c.distributionKey.None?
  {
    hide TableOf;
    KeysAreFlagged(op);
    NothingSelected(op.columns, (c: ColumnInfo) => c.primaryKey.Some?);
    NothingSelected(op.columns, (c: ColumnInfo) => c.distributionKey.Some?);
  }

  lemma NothingSelected(columns: seq<ColumnInfo>, flag: ColumnInfo -> bool)
    ensures |Select(columns, flag)| == 0 <==> forall c :: c in columns ==> !flag(c)
  {
    forall c
      ensures c in Select(columns, flag) <==> c in columns && flag(c)
    {
      SelectContains(columns, flag, c);
    }
  }

  // ---------------------------------------------------------------- reading the text back

  function ReadType(bs: Bytes): (r: (Bytes, Bytes))
    ensures |r.1| <= |bs|
  {
    var (word, rest) := ReadWord(bs);
    match Expect(Ascii(" Unsigned"), rest)
    case Some(rest') => (word + Ascii(" Unsigned"), rest')
    case None => (word, rest)
  }

  function ReadLength(bs: Bytes): Option<(Option<int>, Bytes)> {
    match Expect(Ascii("("), bs)
    case None => Some((None, bs))
    case Some(number) =>
      var (v, rest) := ReadInt(number);
      match Expect(Ascii(")"), rest)
      case None => None
      case Some(rest') => Some((Some(v), rest'))
  }

  /** Type, length and NOT NULL, after the name of a column. */
  function ReadColumnRest(name: Bytes, bs: Bytes): Option<(ColumnDecl, Bytes)> {
    match Expect(Ascii(" "), bs)
    case None => None
    case Some(declaration) =>
      var (typeName, rest) := ReadType(declaration);
      match ReadLength(rest)
      case None => None
      case Some((length, rest')) =>
        match Expect(Ascii(" NOT NULL, \n"), rest')
        case None => None
        case Some(rest'') => Some((ColumnDecl(name, typeName, length), rest''))
  }

  /** Column lines, up to and including "PRIMARY KEY (". `fuel` bounds the number of columns. */
  function ReadColumns(bs: Bytes, fuel: nat): Option<(seq<ColumnDecl>, Bytes)>
    decreases fuel
  {
    var (word, rest) := ReadWord(bs);
    match Expect(Ascii(" KEY ("), rest)
    case Some(rest') => if word == Ascii("PRIMARY") then Some(([], rest')) else None
    case None =>
      if fuel == 0 then None
      else
        match ReadColumnRest(word, rest)
        case None => None
        case Some((c, more)) =>
          match ReadColumns(more, fuel - 1)
          case None => None
          case Some((cs, rest')) => Some(([c] + cs, rest'))
  }

  function ReadNames(bs: Bytes): (r: Option<(seq<Bytes>, Bytes)>)
    decreases |bs|
  {
    var (name, rest) := ReadWord(bs);
    match Expect(Ascii(","), rest)
    case Some(more) =>
      (match ReadNames(more)
       case None => None
       case Some((names, rest')) => Some(([name] + names, rest')))
    case None =>
      match Expect(Ascii(")"), rest)
      case None => None
      case Some(rest') => Some(([name], rest'))
  }

  function ReadKeys(name: Bytes, columns: seq<ColumnDecl>, bs: Bytes): Option<TableDecl> {
    match ReadNames(bs)
    case None => None
    case Some((primaryKey, rest)) =>
      match Expect(Ascii(",\nINDEX VOLODB_PRUNE_INDEX USING BTREE ("), rest)
      case None => None
      case Some(rest') =>
        match ReadNames(rest')
        case None => None
        case Some((pruneIndex, engine)) =>
          match Expect(Ascii(")\nENGINE=NDB\n") + Ascii("PARTITION BY KEY ("), engine)
          case None => None
          case Some(partition) =>
            match ReadNames(partition)
            case None => None
            case Some((partitioning, end)) =>
              if end == [] then Some(TableDecl(name, columns, primaryKey, pruneIndex, partitioning)) else None
  }

  function ReadTable(bs: Bytes): Option<TableDecl> {
    match Expect(Ascii("CREATE TABLE "), bs)
    case None => None
    case Some(table) =>
      var (name, rest) := ReadWord(table);
      match Expect(Ascii("(\n"), rest)
      case None => None
      case Some(rest') =>
        match ReadColumns(rest', |bs|)
        case None => None
        case Some((columns, keys)) => ReadKeys(name, columns, keys)
  }

  // ---------------------------------------------------------------- round trip

  lemma LiteralIsWord(s: string)
    requires forall i :: 0 <= i < |s| ==> IsWordByte(s[i] as int % 256)
    ensures IsWord(Ascii(s))
  {
  }

  /** The names of one word; none of them begins with a K, as " KEY (" would. */
  lemma SimpleTypeName(typ: int32)
    requires typ != UINT32 && typ != UINT64
    ensures IsWord(TypeName(typ)) && TypeName(typ) != [] && TypeName(typ)[0] != 75
  {
    if typ == BOOL { LiteralIsWord("Tinyint"); }
    else if typ == INT64 { LiteralIsWord("Bigint"); }
    else if typ == FLOAT { LiteralIsWord("Float"); }
    else if typ == DOUBLE { LiteralIsWord("Double"); }
    else if typ == CHAR { LiteralIsWord("Char"); }
    else if typ == VARCHAR { LiteralIsWord("Varchar"); }
    else if typ == VARBINARY { LiteralIsWord("Varbinary"); }
    else { LiteralIsWord("Int"); }
  }

  lemma UnsignedTypeName(typ: int32)
    requires typ == UINT32 || typ == UINT64
    ensures var word := if typ == UINT32 then Ascii("Int") else Ascii("Bigint");
            TypeName(typ) == word + Ascii(" Unsigned") && IsWord(word) && TypeName(typ)[0] != 75
  {
    if typ == UINT32 {
      LiteralIsWord("Int");
      assert Ascii("Int") + Ascii(" Unsigned") == Ascii("Int Unsigned");
    } else {
      LiteralIsWord("Bigint");
      assert Ascii("Bigint") + Ascii(" Unsigned") == Ascii("Bigint Unsigned");
    }
  }

  lemma TypeReads(typ: int32, rest: Bytes)
    requires rest != [] && (rest[0] == 40 || Ascii(" NOT") <= rest)
    ensures ReadType(TypeName(typ) + rest) == (TypeName(typ), rest)
    ensures TypeName(typ) != [] && TypeName(typ)[0] != 75
  {
    if typ == UINT32 || typ == UINT64 {
      UnsignedTypeName(typ);
      var word := if typ == UINT32 then Ascii("Int") else Ascii("Bigint");
      ConcatAssociates(word, Ascii(" Unsigned"), rest);
      UnsignedReads(word, rest);
    } else {
      SimpleTypeName(typ);
      SignedReads(TypeName(typ), rest);
    }
  }

  lemma UnsignedReads(word: Bytes, rest: Bytes)
    requires IsWord(word)
    ensures ReadType(word + (Ascii(" Unsigned") + rest)) == (word + Ascii(" Unsigned"), rest)
  {
    WordReads(word, Ascii(" Unsigned") + rest);
    LiteralReads(Ascii(" Unsigned"), rest);
  }

  lemma SignedReads(word: Bytes, rest: Bytes)
    requires IsWord(word)
    requires rest != [] && (rest[0] == 40 || Ascii(" NOT") <= rest)
    ensures ReadType(word + rest) == (word, rest)
  {
    assert Ascii(" NOT")[0] == 32 && Ascii(" NOT")[1] == 78;
    assert Ascii(" Unsigned")[0] == 32 && Ascii(" Unsigned")[1] == 85;
    WordReads(word, rest);
  }

  lemma LengthReads(length: Option<int>, rest: Bytes)
    requires rest != [] && rest[0] == 32
    ensures ReadLength(PrintLength(length) + rest) == Some((length, rest))
  {
    if length.Some? {
      var number := PrintInt(length.value);
      assert PrintLength(length) + rest == Ascii("(") + (number + (Ascii(")") + rest));
      LiteralReads(Ascii("("), number + (Ascii(")") + rest));
      assert Ascii(")")[0] == 41;
      IntReads(length.value, Ascii(")") + rest);
      LiteralReads(Ascii(")"), rest);
    } else {
      assert Ascii("(")[0] == 40;
      assert PrintLength(length) + rest == rest;
    }
  }

  lemma ColumnRestReads(c: ColumnInfo, rest: Bytes)
    ensures var d := DeclOf(c);
            var text := Ascii(" ") + (d.typeName + (PrintLength(d.length) + (Ascii(" NOT NULL, \n") + rest)));
            && ReadColumnRest(d.name, text) == Some((d, rest))
            && |text| >= 2 && text[0] == 32 && text[1] != 75
  {
    var d := DeclOf(c);
    var end := Ascii(" NOT NULL, \n") + rest;
    assert Ascii(" NOT NULL, \n")[..4] == Ascii(" NOT");
    assert Ascii(" NOT") <= end && end[0] == 32;
    LiteralReads(Ascii(" NOT NULL, \n"), rest);
    LengthReads(d.length, end);
    var afterType := PrintLength(d.length) + end;
    LiteralReads(Ascii(" "), d.typeName + afterType);
    if d.length.Some? {
      assert afterType[0] == Ascii("(")[0] == 40;
    } else {
      assert afterType == end;
    }
    TypeReads(TypeOf(c), afterType);
  }

  ghost predicate PlainNames(op: StoreDefinition) {
    IsWord(StoreNameOf(op)) && forall c :: c in op.columns ==> IsWord(c.name.GetOr([]))
  }

  lemma NotKeys(text: Bytes)
    requires |text| >= 2 && text[0] == 32 && text[1] != 75
    ensures Expect(Ascii(" KEY ("), text) == None && !IsWordByte(text[0])
  {
    assert Ascii(" KEY (")[1] == 75;
  }

  lemma OneColumnThenMore(bs: Bytes, word: Bytes, rest: Bytes, c: ColumnDecl, more: Bytes, fuel: nat)
    requires ReadWord(bs) == (word, rest) && Expect(Ascii(" KEY ("), rest) == None && fuel > 0
    requires ReadColumnRest(word, rest) == Some((c, more))
    ensures ReadColumns(bs, fuel)
            == match ReadColumns(more, fuel - 1)
               case None => None
               case Some((cs, keys)) => Some(([c] + cs, keys))
  {
  }

  lemma ColumnPieces(a: Bytes, b: Bytes, c: Bytes, d: Bytes, e: Bytes, f: Bytes)
    ensures a + b + c + d + e + f == a + (b + (c + (d + (e + f))))
  {
    ConcatAssociates(a + b + c + d, e, f);
    ConcatAssociates(a + b + c, d, e + f);
    ConcatAssociates(a + b, c, d + (e + f));
    ConcatAssociates(a, b, c + (d + (e + f)));
  }

  lemma ColumnReads(c: ColumnInfo, rest: Bytes, fuel: nat)
    requires IsWord(c.name.GetOr([])) && fuel > 0
    ensures ReadColumns(PrintColumn(DeclOf(c)) + rest, fuel)
            == match ReadColumns(rest, fuel - 1)
               case None => None
               case Some((cs, keys)) => Some(([DeclOf(c)] + cs, keys))
  {
    var d := DeclOf(c);
    var text := Ascii(" ") + (d.typeName + (PrintLength(d.length) + (Ascii(" NOT NULL, \n") + rest)));
    ColumnPieces(d.name, Ascii(" "), d.typeName, PrintLength(d.length), Ascii(" NOT NULL, \n"), rest);
    ColumnRestReads(c, rest);
    NotKeys(text);
    WordReads(d.name, text);
    OneColumnThenMore(PrintColumn(d) + rest, d.name, text, d, rest, fuel);
  }

  lemma KeyWordsRead(keys: Bytes, fuel: nat)
    ensures ReadColumns(Ascii("PRIMARY KEY (") + keys, fuel) == Some(([], keys))
  {
    assert Ascii("PRIMARY KEY (") == Ascii("PRIMARY") + Ascii(" KEY (");
    ConcatAssociates(Ascii("PRIMARY"), Ascii(" KEY ("), keys);
    LiteralIsWord("PRIMARY");
    assert Ascii(" KEY (")[0] == 32;
    WordReads(Ascii("PRIMARY"), Ascii(" KEY (") + keys);
    LiteralReads(Ascii(" KEY ("), keys);
  }

  lemma {:induction false} ColumnsRead(columns: seq<ColumnInfo>, keys: Bytes, fuel: nat)
    requires forall c :: c in columns ==> IsWord(c.name.GetOr([]))
    requires fuel >= |columns|
    ensures ReadColumns(PrintColumns(DeclsOf(columns)) + (Ascii("PRIMARY KEY (") + keys), fuel)
            == Some((DeclsOf(columns), keys))
  {
    hide DeclOf;
    hide ReadColumns;
    hide PrintColumn;
    var end := Ascii("PRIMARY KEY (") + keys;
    var decls := DeclsOf(columns);
    if columns == [] {
      assert PrintColumns(decls) + end == end;
      KeyWordsRead(keys, fuel);
    } else {
      assert columns[0] in columns;
      assert decls[1..] == DeclsOf(columns[1..]);
      ConcatAssociates(PrintColumn(decls[0]), PrintColumns(decls[1..]), end);
      ColumnReads(columns[0], PrintColumns(decls[1..]) + end, fuel);
      ColumnsRead(columns[1..], keys, fuel - 1);
      assert [decls[0]] + decls[1..] == decls;
    }
  }

  lemma {:induction false} NamesRead(names: seq<Bytes>, rest: Bytes)
    requires names != [] && forall n :: n in names ==> IsWord(n)
    ensures ReadNames(PrintNames(names) + rest) == Some((names, rest))
  {
    var name := names[0];
    assert name in names;
    assert Ascii(",")[0] == 44 && Ascii(")")[0] == 41;
    if |names| == 1 {
      assert PrintNames(names) + rest == name + (Ascii(")") + rest);
      WordReads(name, Ascii(")") + rest);
      LiteralReads(Ascii(")"), rest);
      assert names == [name];
    } else {
      var more := PrintNames(names[1..]) + rest;
      assert PrintNames(names) + rest == name + (Ascii(",") + more);
      WordReads(name, Ascii(",") + more);
      LiteralReads(Ascii(","), more);
      NamesRead(names[1..], rest);
      assert [name] + names[1..] == names;
    }
  }

  lemma {:induction false} SelectedNames(columns: seq<ColumnInfo>, test: ColumnDef -> bool)
    requires forall c :: c in columns ==> IsWord(c.name.GetOr([]))
    ensures forall n :: n in Names(Select(InfoOf(columns).columns, test)) ==> IsWord(n)
  {
    var defs := InfoOf(columns).columns;
    forall n | n in Names(Select(defs, test))
      ensures IsWord(n)
    {
      var k :| 0 <= k < |Select(defs, test)| && Select(defs, test)[k].name == n;
      SelectContains(defs, test, Select(defs, test)[k]);
      var j :| 0 <= j < |defs| && defs[j] == Select(defs, test)[k];
      assert columns[j] in columns;
    }
  }

  lemma KeysRead(t: TableDecl)
    requires t.primaryKey != [] && t.pruneIndex != [] && t.partitioning != []
    requires forall n :: n in t.primaryKey || n in t.pruneIndex || n in t.partitioning ==> IsWord(n)
    ensures exists keys :: PrintKeys(t) == Ascii("PRIMARY KEY (") + keys && ReadKeys(t.name, t.columns, keys) == Some(t)
  {
    var p, x, d := PrintNames(t.primaryKey), PrintNames(t.pruneIndex), PrintNames(t.partitioning);
    var index, engine, partition := Ascii(",\nINDEX VOLODB_PRUNE_INDEX USING BTREE ("), Ascii(")\nENGINE=NDB\n"),
        Ascii("PARTITION BY KEY (");
    var keys := p + (index + (x + ((engine + partition) + d)));
    SixPieces(Ascii("PRIMARY KEY ("), p, index, x, engine, partition, d);
    NamesRead(t.primaryKey, index + (x + ((engine + partition) + d)));
    LiteralReads(index, x + ((engine + partition) + d));
    NamesRead(t.pruneIndex, (engine + partition) + d);
    LiteralReads(engine + partition, d);
    assert d + [] == d;
    NamesRead(t.partitioning, []);
    assert PrintKeys(t) == Ascii("PRIMARY KEY (") + keys && ReadKeys(t.name, t.columns, keys) == Some(t);
  }

  lemma SixPieces(start: Bytes, a: Bytes, b: Bytes, c: Bytes, d: Bytes, e: Bytes, f: Bytes)
    ensures start + a + b + c + d + e + f == start + (a + (b + (c + ((d + e) + f))))
  {
    ConcatAssociates(d, e, f);
    ConcatAssociates(c, d + e, f);
    ConcatAssociates(start + a + b + c, d, e);
    ConcatAssociates(start + a + b, c, d + e);
    ConcatAssociates(start + a + b, c + (d + e), f);
    ConcatAssociates(start + a, b, c + (d + e) + f);
    ConcatAssociates(start, a, b + (c + (d + e) + f));
  }

  /**
   What a new table must be declared as: each column of the request, in order, with its type's name and
   its length; the columns with a primary_key flag as its primary key; and those with a distribution_key
   flag both as the columns of the prune index and as those it is partitioned by.
   */
  ghost predicate Declares(t: TableDecl, op: StoreDefinition) {
    && t.name == op.storeInfo.GetOr(NO_STORE_INFO).storeName.GetOr([])
    && |t.columns| == |op.columns|
    && (forall i :: 0 <= i < |op.columns| ==>
          var (c, typ, length) := (op.columns[i], op.columns[i].typ.GetOr(1), op.columns[i].length);
          && t.columns[i].name == c.name.GetOr([])
          && t.columns[i].typeName == (if typ == 1 then Ascii("Tinyint")
                                       else if typ == 8 then Ascii("Int Unsigned")
                                       else if typ == 9 then Ascii("Bigint")
                                       else if typ == 10 then Ascii("Bigint Unsigned")
                                       else if typ == 11 then Ascii("Float")
                                       else if typ == 12 then Ascii("Double")
                                       else if typ == 14 then Ascii("Char")
                                       else if typ == 23 then Ascii("Varchar")
                                       else if typ == 24 then Ascii("Varbinary")
                                       else Ascii("Int"))
          && t.columns[i].length == (if length.Some? && (typ == 23 || typ == 24) then
                                       Some(if length.value < 255 then 256 else length.value)
                                     else if length.Some? && typ == 14 then Some(length.value)
                                     else None))
    && var primary := Select(op.columns, (c: ColumnInfo) => c.primaryKey.Some?);
    && |t.primaryKey| == |primary|
    && (forall k :: 0 <= k < |primary| ==> t.primaryKey[k] == primary[k].name.GetOr([]))
    && var distribution := Select(op.columns, (c: ColumnInfo) => c.distributionKey.Some?);
    && |t.pruneIndex| == |t.partitioning| == |distribution|
    && forall k :: 0 <= k < |distribution| ==>
         t.pruneIndex[k] == t.partitioning[k] == distribution[k].name.GetOr([])
  }

  lemma TableOfDeclares(op: StoreDefinition)
    ensures Declares(TableOf(op), op)
  {
    hide Ascii;
    hide Select;
    KeysAreFlagged(op);
  }

  /** Every text reads back as the declaration it is to be. */
  lemma CreateTableReadsBack(op: StoreDefinition)
    requires PlainNames(op)
    requires TableOf(op).primaryKey != [] && TableOf(op).partitioning != []
    ensures ReadTable(PrintTable(TableOf(op))) == Some(TableOf(op))
    ensures Declares(ReadTable(PrintTable(TableOf(op))).value, op)
  {
    TableOfDeclares(op);
    hide Declares;
    var t := TableOf(op);
    var text := PrintTable(t);
    SelectedNames(op.columns, (c: ColumnDef) => c.isPrimaryKey);
    SelectedNames(op.columns, (c: ColumnDef) => c.isDistributionKey);
    KeysRead(t);
    var keys :| PrintKeys(t) == Ascii("PRIMARY KEY (") + keys && ReadKeys(t.name, t.columns, keys) == Some(t);
    ColumnsAreLong(op.columns);
    ColumnsRead(op.columns, keys, |text|);
    HeadReads(t.name, PrintColumns(t.columns), PrintKeys(t));
  }

  lemma HeadReads(name: Bytes, columns: Bytes, keys: Bytes)
    requires IsWord(name)
    ensures var bs := Ascii("CREATE TABLE ") + name + Ascii("(\n") + columns + keys;
            ReadTable(bs) == match ReadColumns(columns + keys, |bs|)
                             case None => None
                             case Some((cs, ks)) => ReadKeys(name, cs, ks)
  {
    var body := columns + keys;
    ConcatAssociates(Ascii("CREATE TABLE ") + name + Ascii("(\n"), columns, keys);
    ConcatAssociates(Ascii("CREATE TABLE ") + name, Ascii("(\n"), body);
    ConcatAssociates(Ascii("CREATE TABLE "), name, Ascii("(\n") + body);
    LiteralReads(Ascii("CREATE TABLE "), name + (Ascii("(\n") + body));
    assert Ascii("(\n")[0] == 40;
    WordReads(name, Ascii("(\n") + body);
    LiteralReads(Ascii("(\n"), body);
  }

  lemma {:induction false} ColumnsAreLong(columns: seq<ColumnInfo>)
    ensures |PrintColumns(DeclsOf(columns))| >= |columns|
  {
    if columns != [] {
      assert DeclsOf(columns)[1..] == DeclsOf(columns[1..]);
      ColumnsAreLong(columns[1..]);
    }
  }

  // ---------------------------------------------------------------- the statement

  /**
   execute(CreateStoreOperation) up to the query: a text only when there is a column with each of the key
   flags, be they true or false, and then one that declares the table.
   */
  method CreateTable(op: StoreDefinition) returns (statement: Statement)
    ensures statement == if forall c :: c in op.columns ==> c.primaryKey.None? then
                           Refused(Ascii("No primary key indicated"))
                         else if forall c :: c in op.columns ==> c.distributionKey.None? then
                           Refused(Ascii("No distribution key indicated"))
                         else Issued(PrintTable(TableOf(op)))
    ensures statement.Issued? && PlainNames(op) ==>
              ReadTable(statement.text).Some? && Declares(ReadTable(statement.text).value, op)
  {
    hide Declares;
    hide PlainNames;
    hide ReadTable;
    KeyListsAreEmpty(op);
    if PlainNames(op) && TableOf(op).primaryKey != [] && TableOf(op).partitioning != [] {
      CreateTableReadsBack(op);
    }
    var createTableStr := Ascii("CREATE TABLE ") + StoreNameOf(op) + Ascii("(\n");
    var primary, distribution;
    createTableStr, primary, distribution := PrintColumnList(op.columns, createTableStr);
    ghost var start := createTableStr;
    if |primary| == 0 {
      return Refused(Ascii("No primary key indicated"));
    }
    var keys := Ascii("PRIMARY KEY (");
    keys := PrintNameList(op.columns, primary, keys);
    if |distribution| > 0 {
      keys := keys + Ascii(",\nINDEX VOLODB_PRUNE_INDEX USING BTREE (");
      keys := PrintNameList(op.columns, distribution, keys);
    }
    keys := keys + Ascii(")\nENGINE=NDB\n");
    if |distribution| == 0 {
      return Refused(Ascii("No distribution key indicated"));
    }
    keys := keys + Ascii("PARTITION BY KEY (");
    keys := PrintNameList(op.columns, distribution, keys);
    createTableStr := createTableStr + keys;
    return Issued(createTableStr);
  }
}
