/** How the generator turns Slice names into Java names: Java keywords (and
    the methods every generated class inherits) get a leading underscore, a
    scoped name "::M::N" is split into its components, each escaped, and
    joined with "." into a Java qualified name. */
module JavaNames {
  import opened Wrappers
  import opened Text

  // ---------------------------------------------------------------------
  // The keyword table
  // ---------------------------------------------------------------------

  /* The table is written in eight runs of eight entries; entry i is entry
     i % 8 of run i / 8. */

  function RunA(j: nat): string
    requires j < 8
  {
    match j
    case 0 => "abstract"
    case 1 => "assert"
    case 2 => "boolean"
    case 3 => "break"
    case 4 => "byte"
    case 5 => "case"
    case 6 => "catch"
    case _ => "char"
  }

  function RunB(j: nat): string
    requires j < 8
  {
    match j
    case 0 => "checkedCast"
    case 1 => "class"
    case 2 => "clone"
    case 3 => "const"
    case 4 => "continue"
    case 5 => "default"
    case 6 => "do"
    case _ => "double"
  }

  function RunC(j: nat): string
    requires j < 8
  {
    match j
    case 0 => "else"
    case 1 => "enum"
    case 2 => "equals"
    case 3 => "extends"
    case 4 => "false"
    case 5 => "final"
    case 6 => "finalize"
    case _ => "finally"
  }

  function RunD(j: nat): string
    requires j < 8
  {
    match j
    case 0 => "float"
    case 1 => "for"
    case 2 => "getClass"
    case 3 => "goto"
    case 4 => "hashCode"
    case 5 => "if"
    case 6 => "implements"
    case _ => "import"
  }

  function RunE(j: nat): string
    requires j < 8
  {
    match j
    case 0 => "instanceof"
    case 1 => "int"
    case 2 => "interface"
    case 3 => "long"
    case 4 => "native"
    case 5 => "new"
    case 6 => "notify"
    case _ => "notifyAll"
  }

  function RunF(j: nat): string
    requires j < 8
  {
    match j
    case 0 => "null"
    case 1 => "package"
    case 2 => "private"
    case 3 => "protected"
    case 4 => "public"
    case 5 => "return"
    case 6 => "short"
    case _ => "static"
  }

  function RunG(j: nat): string
    requires j < 8
  {
    match j
    case 0 => "strictfp"
    case 1 => "super"
    case 2 => "switch"
    case 3 => "synchronized"
    case 4 => "this"
    case 5 => "throw"
    case 6 => "throws"
    case _ => "toString"
  }

  function RunH(j: nat): string
    requires j < 8
  {
    match j
    case 0 => "transient"
    case 1 => "true"
    case 2 => "try"
    case 3 => "uncheckedCast"
    case 4 => "void"
    case 5 => "volatile"
    case 6 => "wait"
    case _ => "while"
  }

  /** Entry i of the keyword table: the Java keywords, plus the names of the
      java.lang.Object methods and of checkedCast / uncheckedCast, in
      alphabetical order. */
  function Keyword(i: nat): string
    requires i < 64
  {
    var j := i % 8;
    match i / 8
    case 0 => RunA(j)
    case 1 => RunB(j)
    case 2 => RunC(j)
    case 3 => RunD(j)
    case 4 => RunE(j)
    case 5 => RunF(j)
    case 6 => RunG(j)
    case _ => RunH(j)
  }

  /** The whole table, as the sequence binary search runs over. */
  const Keywords: seq<string> := seq(64, i requires 0 <= i < 64 => Keyword(i))

  /** Entries 0 to 8 are in increasing order. */
  lemma KeywordsIncreasingA()
    ensures Less(Keyword(0), Keyword(1))
    ensures Less(Keyword(1), Keyword(2))
    ensures Less(Keyword(2), Keyword(3))
    ensures Less(Keyword(3), Keyword(4))
    ensures Less(Keyword(4), Keyword(5))
    ensures Less(Keyword(5), Keyword(6))
    ensures Less(Keyword(6), Keyword(7))
    ensures Less(Keyword(7), Keyword(8))
  {
    assert Keyword(0) == "abstract";
    assert Keyword(1) == "assert";
    assert Keyword(2) == "boolean";
    assert Keyword(3) == "break";
    assert Keyword(4) == "byte";
    assert Keyword(5) == "case";
    assert Keyword(6) == "catch";
    assert Keyword(7) == "char";
    assert Keyword(8) == "checkedCast";
    assert Less("abstract", "assert");
    assert Less("assert", "boolean");
    assert Less("boolean", "break");
    assert Less("break", "byte");
    assert Less("byte", "case");
    assert Less("case", "catch");
    assert Less("catch", "char");
    assert Less("char", "checkedCast");
  }

  /** Entries 8 to 16 are in increasing order. */
  lemma KeywordsIncreasingB()
    ensures Less(Keyword(8), Keyword(9))
    ensures Less(Keyword(9), Keyword(10))
    ensures Less(Keyword(10), Keyword(11))
    ensures Less(Keyword(11), Keyword(12))
    ensures Less(Keyword(12), Keyword(13))
    ensures Less(Keyword(13), Keyword(14))
    ensures Less(Keyword(14), Keyword(15))
    ensures Less(Keyword(15), Keyword(16))
  {
    assert Keyword(8) == "checkedCast";
    assert Keyword(9) == "class";
    assert Keyword(10) == "clone";
    assert Keyword(11) == "const";
    assert Keyword(12) == "continue";
    assert Keyword(13) == "default";
    assert Keyword(14) == "do";
    assert Keyword(15) == "double";
    assert Keyword(16) == "else";
    assert Less("checkedCast", "class");
    assert Less("class", "clone");
    assert Less("clone", "const");
    assert Less("const", "continue");
    assert Less("continue", "default");
    assert Less("default", "do");
    assert Less("do", "double");
    assert Less("double", "else");
  }

  /** Entries 16 to 24 are in increasing order. */
  lemma KeywordsIncreasingC()
    ensures Less(Keyword(16), Keyword(17))
    ensures Less(Keyword(17), Keyword(18))
    ensures Less(Keyword(18), Keyword(19))
    ensures Less(Keyword(19), Keyword(20))
    ensures Less(Keyword(20), Keyword(21))
    ensures Less(Keyword(21), Keyword(22))
    ensures Less(Keyword(22), Keyword(23))
    ensures Less(Keyword(23), Keyword(24))
  {
    assert Keyword(16) == "else";
    assert Keyword(17) == "enum";
    assert Keyword(18) == "equals";
    assert Keyword(19) == "extends";
    assert Keyword(20) == "false";
    assert Keyword(21) == "final";
    assert Keyword(22) == "finalize";
    assert Keyword(23) == "finally";
    assert Keyword(24) == "float";
    assert Less("else", "enum");
    assert Less("enum", "equals");
    assert Less("equals", "extends");
    assert Less("extends", "false");
    assert Less("false", "final");
    assert Less("final", "finalize");
    assert Less("finalize", "finally");
    assert Less("finally", "float");
  }

  /** Entries 24 to 32 are in increasing order. */
  lemma KeywordsIncreasingD()
    ensures Less(Keyword(24), Keyword(25))
    ensures Less(Keyword(25), Keyword(26))
    ensures Less(Keyword(26), Keyword(27))
    ensures Less(Keyword(27), Keyword(28))
    ensures Less(Keyword(28), Keyword(29))
    ensures Less(Keyword(29), Keyword(30))
    ensures Less(Keyword(30), Keyword(31))
    ensures Less(Keyword(31), Keyword(32))
  {
    assert Keyword(24) == "float";
    assert Keyword(25) == "for";
    assert Keyword(26) == "getClass";
    assert Keyword(27) == "goto";
    assert Keyword(28) == "hashCode";
    assert Keyword(29) == "if";
    assert Keyword(30) == "implements";
    assert Keyword(31) == "import";
    assert Keyword(32) == "instanceof";
    assert Less("float", "for");
    assert Less("for", "getClass");
    assert Less("getClass", "goto");
    assert Less("goto", "hashCode");
    assert Less("hashCode", "if");
    assert Less("if", "implements");
    assert Less("implements", "import");
    assert Less("import", "instanceof");
  }

  /** Entries 32 to 40 are in increasing order. */
  lemma KeywordsIncreasingE()
    ensures Less(Keyword(32), Keyword(33))
    ensures Less(Keyword(33), Keyword(34))
    ensures Less(Keyword(34), Keyword(35))
    ensures Less(Keyword(35), Keyword(36))
    ensures Less(Keyword(36), Keyword(37))
    ensures Less(Keyword(37), Keyword(38))
    ensures Less(Keyword(38), Keyword(39))
    ensures Less(Keyword(39), Keyword(40))
  {
    assert Keyword(32) == "instanceof";
    assert Keyword(33) == "int";
    assert Keyword(34) == "interface";
    assert Keyword(35) == "long";
    assert Keyword(36) == "native";
    assert Keyword(37) == "new";
    assert Keyword(38) == "notify";
    assert Keyword(39) == "notifyAll";
    assert Keyword(40) == "null";
    assert Less("instanceof", "int");
    assert Less("int", "interface");
    assert Less("interface", "long");
    assert Less("long", "native");
    assert Less("native", "new");
    assert Less("new", "notify");
    assert Less("notify", "notifyAll");
    assert Less("notifyAll", "null");
  }

  /** Entries 40 to 48 are in increasing order. */
  lemma KeywordsIncreasingF()
    ensures Less(Keyword(40), Keyword(41))
    ensures Less(Keyword(41), Keyword(42))
    ensures Less(Keyword(42), Keyword(43))
    ensures Less(Keyword(43), Keyword(44))
    ensures Less(Keyword(44), Keyword(45))
    ensures Less(Keyword(45), Keyword(46))
    ensures Less(Keyword(46), Keyword(47))
    ensures Less(Keyword(47), Keyword(48))
  {
    assert Keyword(40) == "null";
    assert Keyword(41) == "package";
    assert Keyword(42) == "private";
    assert Keyword(43) == "protected";
    assert Keyword(44) == "public";
    assert Keyword(45) == "return";
    assert Keyword(46) == "short";
    assert Keyword(47) == "static";
    assert Keyword(48) == "strictfp";
    assert Less("null", "package");
    assert Less("package", "private");
    assert Less("private", "protected");
    assert Less("protected", "public");
    assert Less("public", "return");
    assert Less("return", "short");
    assert Less("short", "static");
    assert Less("static", "strictfp");
  }

  /** Entries 48 to 56 are in increasing order. */
  lemma KeywordsIncreasingG()
    ensures Less(Keyword(48), Keyword(49))
    ensures Less(Keyword(49), Keyword(50))
    ensures Less(Keyword(50), Keyword(51))
    ensures Less(Keyword(51), Keyword(52))
    ensures Less(Keyword(52), Keyword(53))
    ensures Less(Keyword(53), Keyword(54))
    ensures Less(Keyword(54), Keyword(55))
    ensures Less(Keyword(55), Keyword(56))
  {
    assert Keyword(48) == "strictfp";
    assert Keyword(49) == "super";
    assert Keyword(50) == "switch";
    assert Keyword(51) == "synchronized";
    assert Keyword(52) == "this";
    assert Keyword(53) == "throw";
    assert Keyword(54) == "throws";
    assert Keyword(55) == "toString";
    assert Keyword(56) == "transient";
    assert Less("strictfp", "super");
    assert Less("super", "switch");
    assert Less("switch", "synchronized");
    assert Less("synchronized", "this");
    assert Less("this", "throw");
    assert Less("throw", "throws");
    assert Less("throws", "toString");
    assert Less("toString", "transient");
  }

  /** Entries 56 to 63 are in increasing order. */
  lemma KeywordsIncreasingH()
    ensures Less(Keyword(56), Keyword(57))
    ensures Less(Keyword(57), Keyword(58))
    ensures Less(Keyword(58), Keyword(59))
    ensures Less(Keyword(59), Keyword(60))
    ensures Less(Keyword(60), Keyword(61))
    ensures Less(Keyword(61), Keyword(62))
    ensures Less(Keyword(62), Keyword(63))
  {
    assert Keyword(56) == "transient";
    assert Keyword(57) == "true";
    assert Keyword(58) == "try";
    assert Keyword(59) == "uncheckedCast";
    assert Keyword(60) == "void";
    assert Keyword(61) == "volatile";
    assert Keyword(62) == "wait";
    assert Keyword(63) == "while";
    assert Less("transient", "true");
    assert Less("true", "try");
    assert Less("try", "uncheckedCast");
    assert Less("uncheckedCast", "void");
    assert Less("void", "volatile");
    assert Less("volatile", "wait");
    assert Less("wait", "while");
  }

  /** The first half of the table increases entry by entry. */
  lemma KeywordsIncreasingLow()
    ensures forall i | 0 <= i < 32 :: Less(Keyword(i), Keyword(i + 1))
  {
    KeywordsIncreasingA();
    KeywordsIncreasingB();
    KeywordsIncreasingC();
    KeywordsIncreasingD();
    forall i | 0 <= i < 32 ensures Less(Keyword(i), Keyword(i + 1)) {
      if i < 8 {
        assert i == 0 || i == 1 || i == 2 || i == 3 ||
          i == 4 || i == 5 || i == 6 || i == 7;
      } else if i < 16 {
        assert i == 8 || i == 9 || i == 10 || i == 11 ||
          i == 12 || i == 13 || i == 14 || i == 15;
      } else if i < 24 {
        assert i == 16 || i == 17 || i == 18 || i == 19 ||
          i == 20 || i == 21 || i == 22 || i == 23;
      } else {
        assert i == 24 || i == 25 || i == 26 || i == 27 ||
          i == 28 || i == 29 || i == 30 || i == 31;
      }
    }
  }

  /** The second half of the table increases entry by entry. */
  lemma KeywordsIncreasingHigh()
    ensures forall i | 32 <= i < 63 :: Less(Keyword(i), Keyword(i + 1))
  {
    KeywordsIncreasingE();
    KeywordsIncreasingF();
    KeywordsIncreasingG();
    KeywordsIncreasingH();
    forall i | 32 <= i < 63 ensures Less(Keyword(i), Keyword(i + 1)) {
      if i < 40 {
        assert i == 32 || i == 33 || i == 34 || i == 35 ||
          i == 36 || i == 37 || i == 38 || i == 39;
      } else if i < 48 {
        assert i == 40 || i == 41 || i == 42 || i == 43 ||
          i == 44 || i == 45 || i == 46 || i == 47;
      } else if i < 56 {
        assert i == 48 || i == 49 || i == 50 || i == 51 ||
          i == 52 || i == 53 || i == 54 || i == 55;
      } else {
        assert i == 56 || i == 57 || i == 58 || i == 59 ||
          i == 60 || i == 61 || i == 62;
      }
    }
  }

  /** The table is in the order binary search needs: strictly increasing. */
  lemma KeywordsStrictlySorted()
    ensures |Keywords| == 64
    ensures StrictlySorted(Keywords)
  {
    KeywordsIncreasingLow();
    KeywordsIncreasingHigh();
    assert AdjacentIncreasing(Keywords) by {
      forall i | 0 <= i < |Keywords| - 1 ensures Less(Keywords[i], Keywords[i + 1]) {
        assert Keywords[i] == Keyword(i) && Keywords[i + 1] == Keyword(i + 1);
      }
    }
    AdjacentIncreasingIsStrictlySorted(Keywords);
  }

  /** Every entry is a non-empty word that starts at or after 'a'; in
      particular none starts with '_' or ':'. */
  lemma KeywordsStartWithLetter()
    ensures forall i | 0 <= i < 64 :: |Keyword(i)| > 0 && 'a' <= Keyword(i)[0]
  {
    KeywordsStrictlySorted();
    assert Keyword(0) == "abstract";
    forall i | 0 <= i < 64 ensures |Keyword(i)| > 0 && 'a' <= Keyword(i)[0] {
      if i > 0 {
        assert Keywords[0] == Keyword(0) && Keywords[i] == Keyword(i);
        LessFirstChar(Keyword(0), Keyword(i));
      }
    }
  }

  /** The empty name, and any name starting below 'a' (such as '_' or ':'),
      is not in the table. */
  lemma NotKeyword(name: string)
    requires |name| == 0 || name[0] < 'a'
    ensures !IsKeyword(name)
  {
    KeywordsStartWithLetter();
  }

  /** name is one of the table's entries. */
  ghost predicate IsKeyword(name: string)
  {
    exists i | 0 <= i < 64 :: Keyword(i) == name
  }

  // ---------------------------------------------------------------------
  // Binary search
  // ---------------------------------------------------------------------

  /** std::binary_search over table[lo..hi] of a strictly sorted table: the
      position of key when it is there, None when it is not. */
  function BinarySearch(table: seq<string>, key: string, lo: nat, hi: nat): (r: Option<nat>)
    requires lo <= hi <= |table|
    requires StrictlySorted(table)
    ensures r.Some? ==> lo <= r.value < hi && table[r.value] == key
    ensures r.None? ==> forall i | lo <= i < hi :: table[i] != key
    decreases hi - lo
  {
    if lo == hi then None
    else
      var mid := (lo + hi) / 2;
      if Less(key, table[mid]) then
        AboveMissing(table, key, lo, mid, hi);
        BinarySearch(table, key, lo, mid)
      else if Less(table[mid], key) then
        BelowMissing(table, key, lo, mid, hi);
        BinarySearch(table, key, mid + 1, hi)
      else
        LessTotal(key, table[mid]);
        Some(mid)
  }

  /** A key below table[mid] is nowhere in table[mid..hi]. */
  lemma AboveMissing(table: seq<string>, key: string, lo: nat, mid: nat, hi: nat)
    requires lo <= mid < hi <= |table|
    requires StrictlySorted(table)
    requires Less(key, table[mid])
    ensures forall j | mid <= j < hi :: table[j] != key
  {
    forall j | mid <= j < hi ensures table[j] != key {
      if j == mid {
        LessIrreflexive(key);
      } else {
        LessAsymmetric(table[mid], table[j]);
      }
    }
  }

  /** A key above table[mid] is nowhere in table[lo..mid + 1]. */
  lemma BelowMissing(table: seq<string>, key: string, lo: nat, mid: nat, hi: nat)
    requires lo <= mid < hi <= |table|
    requires StrictlySorted(table)
    requires Less(table[mid], key)
    ensures forall j | lo <= j <= mid :: table[j] != key
  {
    forall j | lo <= j <= mid ensures table[j] != key {
      if j == mid {
        LessIrreflexive(key);
      } else {
        LessAsymmetric(table[j], table[mid]);
      }
    }
  }

  // ---------------------------------------------------------------------
  // Escaping one name
  // ---------------------------------------------------------------------

  /** Because the table is sorted, binary search over it finds a name
      exactly when the name is one of its entries: lookupKwd's binary_search
      decides membership. */
  lemma KeywordSearch(name: string)
    ensures StrictlySorted(Keywords)
    ensures BinarySearch(Keywords, name, 0, |Keywords|).Some? <==> IsKeyword(name)
  {
    KeywordsStrictlySorted();
    match BinarySearch(Keywords, name, 0, |Keywords|)
    case Some(i) =>
      assert Keyword(i) == name;
    case None =>
      if IsKeyword(name) {
        var i :| 0 <= i < 64 && Keyword(i) == name;
        assert Keywords[i] == name;
      }
  }

  /** name is entry i of the table or a later one: the table scanned from
      position i on. */
  predicate KeywordFrom(name: string, i: nat)
    decreases 64 - i
  {
    i < 64 && (Keyword(i) == name || KeywordFrom(name, i + 1))
  }

  lemma {:induction false} KeywordFromIsEntry(name: string, i: nat)
    ensures KeywordFrom(name, i) <==> exists j | i <= j < 64 :: Keyword(j) == name
    decreases 64 - i
  {
    if i < 64 {
      KeywordFromIsEntry(name, i + 1);
      if KeywordFrom(name, i) && Keyword(i) != name {
        var j :| i + 1 <= j < 64 && Keyword(j) == name;
        assert i <= j;
      }
      if exists j | i <= j < 64 :: Keyword(j) == name {
        var j :| i <= j < 64 && Keyword(j) == name;
        if j != i {
          assert i + 1 <= j;
        }
      }
    }
  }

  /** lookupKwd: a name in the table gets a leading underscore, any other
      name is returned unchanged. The table lookup is written as a scan;
      KeywordSearch shows the binary search gives the same answer. */
  function LookupKwd(name: string): (r: string)
    ensures r == name || r == "_" + name
  {
    if KeywordFrom(name, 0) then "_" + name else name
  }

  /** lookupKwd escapes exactly the names in the table. */
  lemma LookupKwdSpec(name: string)
    ensures IsKeyword(name) ==> LookupKwd(name) == "_" + name
    ensures !IsKeyword(name) ==> LookupKwd(name) == name
  {
    KeywordFromIsEntry(name, 0);
  }

  /** An escaped name is never a keyword, and escaping it again changes
      nothing (convertScopedName escapes every component twice). */
  lemma LookupKwdIdempotent(name: string)
    ensures !IsKeyword(LookupKwd(name))
    ensures LookupKwd(LookupKwd(name)) == LookupKwd(name)
  {
    LookupKwdSpec(name);
    var escaped := "_" + name;
    assert escaped[0] == '_';
    NotKeyword(escaped);
    if !IsKeyword(name) {
      assert LookupKwd(name) == name;
    }
    LookupKwdSpec(LookupKwd(name));
  }

  /** Escaping leaves the empty name empty and a non-empty one starting with
      '_' or with its own first character. */
  lemma LookupKwdShape(name: string)
    ensures LookupKwd(name) == "" <==> name == ""
    ensures |name| > 0 ==> LookupKwd(name)[0] == '_' || LookupKwd(name)[0] == name[0]
  {
    LookupKwdSpec(name);
    NotKeyword("");
  }

  /** Two names that do not start with an underscore escape to the same Java
      name only when they are the same name. */
  lemma LookupKwdInjective(a: string, b: string)
    requires |a| == 0 || a[0] != '_'
    requires |b| == 0 || b[0] != '_'
    ensures LookupKwd(a) == LookupKwd(b) <==> a == b
  {
    LookupKwdSpec(a);
    LookupKwdSpec(b);
    assert ("_" + a)[0] == '_' && ("_" + a)[1..] == a;
    assert ("_" + b)[0] == '_' && ("_" + b)[1..] == b;
  }

  // ---------------------------------------------------------------------
  // Scoped names
  // ---------------------------------------------------------------------

  /** "::" starts at position k of s. */
  predicate SeparatorAt(s: string, k: nat)
  {
    k + 1 < |s| && s[k] == ':' && s[k + 1] == ':'
  }

  /** std::string::find("::", from): the first "::" at or after from. */
  function FindSeparator(s: string, from: nat): (r: Option<nat>)
    ensures r.Some? ==> from <= r.value && SeparatorAt(s, r.value)
    decreases |s| - from
  {
    if from + 2 > |s| then None
    else if SeparatorAt(s, from) then Some(from)
    else FindSeparator(s, from + 1)
  }

  /** find("::", from) answers with the first "::" at or after from, and
      with nothing only when there is none. */
  lemma {:induction false} FindSeparatorFirst(s: string, from: nat)
    ensures FindSeparator(s, from).Some? ==>
      forall k | from <= k < FindSeparator(s, from).value :: !SeparatorAt(s, k)
    ensures FindSeparator(s, from).None? ==> forall k | from <= k :: !SeparatorAt(s, k)
    decreases |s| - from
  {
    if from + 2 <= |s| && !SeparatorAt(s, from) {
      FindSeparatorFirst(s, from + 1);
    }
  }

  /** The pieces of s[from..] between the occurrences of "::" that
      find("::", ...) meets scanning left to right. */
  function FieldsFrom(s: string, from: nat): (r: seq<string>)
    requires from <= |s|
    ensures |r| >= 1
    decreases |s| - from
  {
    match FindSeparator(s, from)
    case None => [s[from..]]
    case Some(p) => [s[from..p]] + FieldsFrom(s, p + 2)
  }

  /** What splitScopedName returns: the pieces after the first "::", or the
      whole name when it holds no "::". */
  function ScopedComponents(scoped: string): (ids: seq<string>)
    ensures |ids| >= 1
  {
    var fields := FieldsFrom(scoped, 0);
    if |fields| == 1 then fields else fields[1..]
  }

  /** No ':' in any of the components. */
  predicate AllColonFree(ids: seq<string>)
  {
    forall i | 0 <= i < |ids| :: Lacks(ids[i], ':')
  }

  /** A well-formed scoped name: "::" followed by components free of ':'. */
  ghost predicate IsScopedName(s: string)
  {
    StartsWith(s, "::") && AllColonFree(ScopedComponents(s))
  }

  /** "::" in front of every component: how fixKwd writes a scoped name back. */
  function JoinScoped(ids: seq<string>): string
  {
    if ids == [] then "" else "::" + ids[0] + JoinScoped(ids[1..])
  }

  /** The tail of the field list after the first field, as long as there are
      two or more; the loop of SplitScopedName keeps this invariant. */
  function Rest(fields: seq<string>): seq<string>
  {
    if |fields| > 1 then fields[1..] else fields
  }

  /** The component one turn of splitScopedName's loop adds when it reads
      from position from: the text up to the next "::", if there is one. */
  function NextField(s: string, from: nat): seq<string>
    requires from <= |s|
  {
    match FindSeparator(s, from)
    case None => []
    case Some(e) => [s[from..e]]
  }

  /** The fields from a position are the one added there and the rest. */
  lemma FieldsSplitOff(s: string, from: nat)
    requires from <= |s|
    ensures FieldsFrom(s, from) == NextField(s, from) + Rest(FieldsFrom(s, from))
  {
    match FindSeparator(s, from)
    case None =>
      assert FieldsFrom(s, from) == [s[from..]];
    case Some(e) =>
      assert FieldsFrom(s, from) == [s[from..e]] + FieldsFrom(s, e + 2);
  }

  /** The state splitScopedName's loop keeps: the components found before
      position next, followed by the fields still ahead of next, are the
      components of the whole name. */
  ghost predicate SplitSoFar(s: string, next: nat, ids: seq<string>)
  {
    next <= |s| && ScopedComponents(s) == ids + Rest(FieldsFrom(s, next))
  }

  /** One turn of splitScopedName's loop keeps SplitSoFar: when a "::"
      follows position next, the fields after the first one from next are the
      field the turn adds and the fields after that. */
  lemma SplitStep(s: string, next: nat, p: nat, ids: seq<string>)
    requires SplitSoFar(s, next, ids) && FindSeparator(s, next) == Some(p)
    ensures p + 2 <= |s| && SplitSoFar(s, p + 2, ids + NextField(s, p + 2))
  {
    var ahead := Rest(FieldsFrom(s, p + 2));
    var added := NextField(s, p + 2);
    FieldsAfterSeparator(s, next, p);
    assert ids + (added + ahead) == (ids + added) + ahead;
  }

  /** When a "::" at p follows position next, the fields after the first one
      from next are the one that starts after p and those after it. */
  lemma FieldsAfterSeparator(s: string, next: nat, p: nat)
    requires next <= |s| && FindSeparator(s, next) == Some(p)
    ensures p + 2 <= |s|
    ensures Rest(FieldsFrom(s, next)) == NextField(s, p + 2) + Rest(FieldsFrom(s, p + 2))
  {
    assert FieldsFrom(s, next) == [s[next..p]] + FieldsFrom(s, p + 2);
    FieldsSplitOff(s, p + 2);
  }

  /** When no "::" follows position next, the rest of the name is the last
      component. */
  lemma SplitFinish(s: string, next: nat, ids: seq<string>)
    requires SplitSoFar(s, next, ids) && FindSeparator(s, next).None?
    ensures ScopedComponents(s) == ids + [s[next..]]
  {
    assert FieldsFrom(s, next) == [s[next..]];
  }

  /** The inner step of splitScopedName's loop: the text from pos up to the
      next "::", when pos is not the end and another "::" follows. */
  method FieldBefore(scoped: string, pos: nat) returns (piece: seq<string>)
    requires pos <= |scoped|
    ensures piece == NextField(scoped, pos)
  {
    piece := [];
    if pos != |scoped| {
      var endpos := FindSeparator(scoped, pos);
      if endpos.Some? {
        piece := [scoped[pos..endpos.value]];
      }
    }
  }

  /** splitScopedName: the components of a name that starts with ':'. */
  method SplitScopedName(scoped: string) returns (ids: seq<string>)
    requires |scoped| > 0 && scoped[0] == ':'
    ensures ids == ScopedComponents(scoped)
  {
    ids := [];
    var next: nat := 0;
    var found := FindSeparator(scoped, next);
    while found.Some?
      invariant SplitSoFar(scoped, next, ids)
      invariant found == FindSeparator(scoped, next)
      decreases |scoped| - next
    {
      var pos := found.value + 2;
      var piece := FieldBefore(scoped, pos);
      SplitStep(scoped, next, found.value, ids);
      ids := ids + piece;
      next := pos;
      found := FindSeparator(scoped, next);
    }
    SplitFinish(scoped, next, ids);
    if next != |scoped| {
      ids := ids + [scoped[next..]];
    } else {
      assert scoped[next..] == "";
      ids := ids + [""];
    }
  }

  /** Joining components with "::" in front of each is "::" and a plain join. */
  lemma {:induction false} JoinScopedIsJoin(ids: seq<string>)
    requires |ids| >= 1
    ensures JoinScoped(ids) == "::" + Join(ids, "::")
    decreases |ids|
  {
    if |ids| > 1 {
      JoinScopedIsJoin(ids[1..]);
    }
  }

  /** Joining the fields of s[from..] with "::" gives s[from..] back. */
  lemma {:induction false} JoinFieldsFrom(s: string, from: nat)
    requires from <= |s|
    ensures Join(FieldsFrom(s, from), "::") == s[from..]
    decreases |s| - from
  {
    match FindSeparator(s, from)
    case None =>
    case Some(p) =>
      JoinFieldsFrom(s, p + 2);
      assert s[p..p + 2] == "::";
      assert s[from..] == s[from..p] + s[p..p + 2] + s[p + 2..];
  }

  /** find("::", from) passes over text free of ':' and stops at the "::"
      right after it. */
  lemma {:induction false} FindSeparatorAfter(s: string, from: nat, at: nat)
    requires from <= at && SeparatorAt(s, at)
    requires forall k | from <= k < at :: s[k] != ':'
    ensures FindSeparator(s, from) == Some(at)
    decreases at - from
  {
    if from < at {
      FindSeparatorAfter(s, from + 1, at);
    }
  }

  /** find("::", from) finds nothing in ':'-free text up to the end. */
  lemma {:induction false} FindSeparatorNone(s: string, from: nat)
    requires from <= |s|
    requires forall k | from <= k < |s| :: s[k] != ':'
    ensures FindSeparator(s, from) == None
    decreases |s| - from
  {
    if from + 2 <= |s| {
      FindSeparatorNone(s, from + 1);
    }
  }

  /** Where s[from..] is x followed by more, x sits at from and more after it. */
  lemma PrefixAt(s: string, from: nat, x: string, more: string)
    requires from <= |s| && s[from..] == x + more
    ensures from + |x| <= |s| && s[from..from + |x|] == x && s[from + |x|..] == more
    ensures forall k | from <= k < from + |x| :: s[k] == x[k - from]
  {
    forall k | from <= k < from + |x| ensures s[k] == x[k - from] {
      assert s[k] == s[from..][k - from];
    }
    assert s[from..from + |x|] == s[from..][..|x|];
    assert s[from + |x|..] == s[from..][|x|..];
  }

  /** Reading fields where a ':'-free x is all that is left: x is the last field. */
  lemma LastField(s: string, from: nat, x: string)
    requires from <= |s| && s[from..] == x
    requires Lacks(x, ':')
    ensures FieldsFrom(s, from) == [x]
  {
    PrefixAt(s, from, x, "");
    FindSeparatorNone(s, from);
    assert FieldsFrom(s, from) == [s[from..]];
  }

  /** Where s[from..] is a ':'-free x, "::" and next, the first "::" at or
      after from is the one right after x. */
  lemma SeparatorAfter(s: string, from: nat, x: string, next: string)
    requires from <= |s| && s[from..] == x + "::" + next
    requires Lacks(x, ':')
    ensures from + |x| + 2 <= |s| && s[from..from + |x|] == x && s[from + |x| + 2..] == next
    ensures FindSeparator(s, from) == Some(from + |x|)
  {
    var at := from + |x|;
    var more := "::" + next;
    assert s[from..] == x + more;
    PrefixAt(s, from, x, more);
    assert s[at] == s[at..][0] && s[at + 1] == s[at..][1];
    assert s[at + 2..] == s[at..][2..];
    FindSeparatorAfter(s, from, at);
  }

  /** Reading fields where a ':'-free x is followed by "::": x is the next
      field, and reading goes on after the "::". */
  lemma FieldBeforeSeparator(s: string, from: nat, x: string, next: string)
    requires from <= |s| && s[from..] == x + "::" + next
    requires Lacks(x, ':')
    ensures from + |x| + 2 <= |s| && s[from + |x| + 2..] == next
    ensures FieldsFrom(s, from) == [x] + FieldsFrom(s, from + |x| + 2)
  {
    SeparatorAfter(s, from, x, next);
    var at := from + |x|;
    assert FieldsFrom(s, from) == [s[from..at]] + FieldsFrom(s, at + 2);
  }

  /** Where a ':'-free x and JoinScoped(ids) follow from, x is the next field
      and reading goes on at the first component. */
  lemma FieldBeforeComponents(s: string, from: nat, x: string, ids: seq<string>)
    requires from <= |s| && s[from..] == x + JoinScoped(ids)
    requires Lacks(x, ':') && |ids| > 0
    ensures from + |x| + 2 <= |s| && s[from + |x| + 2..] == ids[0] + JoinScoped(ids[1..])
    ensures FieldsFrom(s, from) == [x] + FieldsFrom(s, from + |x| + 2)
  {
    var next := ids[0] + JoinScoped(ids[1..]);
    assert s[from..] == x + "::" + next;
    FieldBeforeSeparator(s, from, x, next);
  }

  /** The fields of s read from a point where x + JoinScoped(ids) follows
      are x and then ids, when none of them holds ':'. */
  lemma {:induction false} FieldsOfJoin(s: string, from: nat, x: string, ids: seq<string>)
    requires from <= |s| && s[from..] == x + JoinScoped(ids)
    requires Lacks(x, ':')
    requires AllColonFree(ids)
    ensures FieldsFrom(s, from) == [x] + ids
    decreases |ids|
  {
    if ids == [] {
      assert s[from..] == x;
      LastField(s, from, x);
    } else {
      FieldBeforeComponents(s, from, x, ids);
      AllColonFreeSplit(ids);
      FieldsOfJoin(s, from + |x| + 2, ids[0], ids[1..]);
      ConsTail(FieldsFrom(s, from + |x| + 2), x, ids);
    }
  }

  /** A list that is ids' head followed by its tail, with x in front, is x
      followed by ids. */
  lemma ConsTail(a: seq<string>, x: string, ids: seq<string>)
    requires |ids| > 0 && a == [ids[0]] + ids[1..]
    ensures [x] + a == [x] + ids
  {
    assert a == ids;
  }

  /** The first component and the rest of a ':'-free list are ':'-free. */
  lemma AllColonFreeSplit(ids: seq<string>)
    requires |ids| > 0 && AllColonFree(ids)
    ensures Lacks(ids[0], ':') && AllColonFree(ids[1..])
    ensures [ids[0]] + ids[1..] == ids
  {
    assert forall i | 0 <= i < |ids| - 1 :: ids[1..][i] == ids[i + 1];
  }

  /** Splitting what fixKwd joins gives the components back. */
  lemma ScopedComponentsOfJoin(ids: seq<string>)
    requires |ids| >= 1
    requires AllColonFree(ids)
    ensures ScopedComponents(JoinScoped(ids)) == ids
    ensures IsScopedName(JoinScoped(ids))
  {
    var s := JoinScoped(ids);
    assert s[0..] == "" + s;
    FieldsOfJoin(s, 0, "", ids);
  }

  /** Joining the components of a name that starts with "::" gives the name
      back: splitting loses nothing. */
  lemma JoinOfScopedComponents(s: string)
    requires StartsWith(s, "::")
    ensures JoinScoped(ScopedComponents(s)) == s
  {
    assert s[0] == s[..2][0] && s[1] == s[..2][1];
    assert FindSeparator(s, 0) == Some(0);
    assert FieldsFrom(s, 0) == [""] + FieldsFrom(s, 2);
    JoinScopedIsJoin(FieldsFrom(s, 2));
    JoinFieldsFrom(s, 2);
    assert s == "::" + s[2..];
  }

  // ---------------------------------------------------------------------
  // fixKwd
  // ---------------------------------------------------------------------

  /** Every name of the list escaped. */
  function LookupAll(ids: seq<string>): (r: seq<string>)
    ensures |r| == |ids|
    ensures forall i | 0 <= i < |ids| :: r[i] == LookupKwd(ids[i])
  {
    if ids == [] then [] else [LookupKwd(ids[0])] + LookupAll(ids[1..])
  }

  /** fixKwd: an unscoped name is escaped as a whole; a scoped one component
      by component and written back with "::". */
  function FixKwd(name: string): (r: string)
  {
    if name == "" then name
    else if name[0] != ':' then LookupKwd(name)
    else JoinScoped(LookupAll(ScopedComponents(name)))
  }

  /** Escaping never brings in a ':'. */
  lemma LookupAllColonFree(ids: seq<string>)
    requires AllColonFree(ids)
    ensures |LookupAll(ids)| == |ids|
    ensures AllColonFree(LookupAll(ids))
  {
    forall i | 0 <= i < |ids| ensures Lacks(LookupAll(ids)[i], ':') {
      EscapedColonFree(ids[i]);
    }
  }

  /** Escaping one name never brings in a ':'. */
  lemma EscapedColonFree(name: string)
    requires Lacks(name, ':')
    ensures Lacks(LookupKwd(name), ':')
  {
    LookupKwdSpec(name);
    var escaped := "_" + name;
    assert forall k | 1 <= k < |escaped| :: escaped[k] == name[k - 1];
  }

  /** On a well-formed scoped name fixKwd keeps the shape and escapes each
      component. */
  lemma FixKwdScoped(s: string)
    requires IsScopedName(s)
    ensures IsScopedName(FixKwd(s))
    ensures ScopedComponents(FixKwd(s)) == LookupAll(ScopedComponents(s))
  {
    var ids := ScopedComponents(s);
    assert s[..2] == "::";
    assert s[0] == ':';
    assert FixKwd(s) == JoinScoped(LookupAll(ids));
    LookupAllColonFree(ids);
    ScopedComponentsOfJoin(LookupAll(ids));
  }

  /** Escaping is idempotent on every name convertScopedName accepts. */
  lemma FixKwdIdempotent(s: string)
    requires Lacks(s, ':') || IsScopedName(s)
    ensures FixKwd(FixKwd(s)) == FixKwd(s)
  {
    if s != "" && s[0] == ':' {
      FixKwdScoped(s);
      var ids := ScopedComponents(s);
      var fixed := LookupAll(ids);
      assert FixKwd(s) != "" && FixKwd(s)[0] == ':';
      assert LookupAll(fixed) == fixed by {
        forall i | 0 <= i < |fixed| ensures LookupAll(fixed)[i] == fixed[i] {
          LookupKwdIdempotent(ids[i]);
        }
      }
    } else if s != "" {
      LookupKwdIdempotent(s);
      assert ("_" + s)[0] == '_';
    }
  }

  // ---------------------------------------------------------------------
  // convertScopedName
  // ---------------------------------------------------------------------

  /** Escaping a ':'-free component once more changes nothing, and leaves it
      empty exactly when it was empty. */
  lemma FixKwdOfEscaped(p: string)
    requires Lacks(p, ':')
    ensures FixKwd(LookupKwd(p)) == LookupKwd(p)
    ensures LookupKwd(p) == "" <==> p == ""
  {
    LookupKwdShape(p);
    LookupKwdIdempotent(p);
  }

  /** The components convertScopedName walks through: those of a scoped name,
      or the name itself. */
  function Parts(scoped: string): (parts: seq<string>)
    ensures |parts| >= 1
  {
    if |scoped| > 0 && scoped[0] == ':' then ScopedComponents(scoped) else [scoped]
  }

  /** The loop's accumulation step: a non-empty piece is appended, after a "."
      when the result is not empty any more. */
  function AppendDotted(acc: string, piece: string): string
  {
    if acc != "" && piece != "" then acc + "." + piece else acc + piece
  }

  /** The pieces appended one after the other, left to right. */
  function JoinDotted(pieces: seq<string>): string
    decreases |pieces|
  {
    if pieces == [] then "" else AppendDotted(JoinDotted(pieces[..|pieces| - 1]), pieces[|pieces| - 1])
  }

  /** The pieces convertScopedName appends: the escaped components, the last
      one between prefix and suffix unless it is empty. */
  function JavaPieces(parts: seq<string>, prefix: string, suffix: string): (pieces: seq<string>)
    requires |parts| >= 1
  {
    var fixed := LookupAll(parts);
    var n := |parts| - 1;
    fixed[..n] + [if parts[n] == "" then "" else prefix + fixed[n] + suffix]
  }

  /** The Java name convertScopedName builds for a Slice name. */
  function JavaName(scoped: string, prefix: string, suffix: string): string
  {
    JoinDotted(JavaPieces(Parts(scoped), prefix, suffix))
  }

  /** fixKwd on a well-formed scoped name: "::" and then the escaped
      components joined with "::". */
  lemma FixKwdLayoutScoped(scoped: string)
    requires IsScopedName(scoped)
    ensures AllColonFree(Parts(scoped)) && AllColonFree(LookupAll(Parts(scoped)))
    ensures var f := FixKwd(scoped);
      |f| >= 2 && f[0] == ':' && f[1] == ':' && f[2..] == Join(LookupAll(Parts(scoped)), "::")
  {
    var ids := ScopedComponents(scoped);
    assert scoped[0] == scoped[..2][0] == ':';
    assert Parts(scoped) == ids;
    var fixed := LookupAll(ids);
    LookupAllColonFree(ids);
    JoinScopedIsJoin(fixed);
    var f := FixKwd(scoped);
    assert f == "::" + Join(fixed, "::");
    assert f[2..] == Join(fixed, "::");
  }

  /** fixKwd on a name without ':': the escaped name, which does not start
      with ':' either. */
  lemma FixKwdLayoutPlain(scoped: string)
    requires Lacks(scoped, ':')
    ensures AllColonFree(Parts(scoped)) && AllColonFree(LookupAll(Parts(scoped)))
    ensures var f := FixKwd(scoped);
      f == Join(LookupAll(Parts(scoped)), "::") && (f == "" || f[0] != ':')
  {
    LookupAllColonFree(Parts(scoped));
    FixKwdOfEscaped(scoped);
    if scoped != "" {
      assert FixKwd(scoped)[0] == '_' || FixKwd(scoped)[0] == scoped[0];
    }
  }

  /** Where the rest of the text is ':'-free components joined with "::",
      find_first_of(':') stops right after the first component, or finds
      nothing when only one is left. */
  lemma NextComponent(t: string, start: nat, fs: seq<string>)
    requires start <= |t| && |fs| >= 1 && AllColonFree(fs)
    requires t[start..] == Join(fs, "::")
    ensures |fs| == 1 ==> FindFirstOf(t, {':'}, start) == None && t[start..] == fs[0]
    ensures |fs| > 1 ==>
      var e := start + |fs[0]|;
      FindFirstOf(t, {':'}, start) == Some(e) && e + 2 <= |t| && t[e + 1] == ':' &&
      t[start..e] == fs[0] && t[e + 2..] == Join(fs[1..], "::")
  {
    if |fs| == 1 {
      PrefixAt(t, start, fs[0], "");
    } else {
      var more := "::" + Join(fs[1..], "::");
      PrefixAt(t, start, fs[0], more);
      var e := start + |fs[0]|;
      assert t[e] == more[0] && t[e + 1] == more[1];
      assert t[e + 2..] == more[2..] by {
        assert t[e + 2..] == t[e..][2..];
      }
    }
  }

  /** Appending the next escaped component continues the dotted join. */
  lemma JoinDottedStep(pieces: seq<string>, k: nat)
    requires k < |pieces|
    ensures JoinDotted(pieces[..k + 1]) == AppendDotted(JoinDotted(pieces[..k]), pieces[k])
  {
    assert pieces[..k + 1][..k] == pieces[..k];
  }

  /** Everything convertScopedName's loop needs to know about its input:
      the escaped components, how fixKwd lays them out, and the Java name
      they make. */
  lemma ConvertSetup(scoped: string, prefix: string, suffix: string) returns (fixed: seq<string>)
    requires Lacks(scoped, ':') || IsScopedName(scoped)
    ensures fixed == LookupAll(Parts(scoped))
    ensures |fixed| >= 1 && AllColonFree(fixed)
    ensures forall i | 0 <= i < |fixed| :: FixKwd(fixed[i]) == fixed[i]
    ensures var f := FixKwd(scoped);
      if |f| > 0 && f[0] == ':' then |f| >= 2 && f[1] == ':' && f[2..] == Join(fixed, "::")
      else f == Join(fixed, "::")
    ensures var n := |fixed| - 1;
      JavaName(scoped, prefix, suffix) ==
        AppendDotted(JoinDotted(fixed[..n]), if fixed[n] == "" then "" else prefix + fixed[n] + suffix)
  {
    var parts := Parts(scoped);
    fixed := LookupAll(parts);
    if IsScopedName(scoped) {
      FixKwdLayoutScoped(scoped);
    } else {
      FixKwdLayoutPlain(scoped);
    }
    FixKwdKeepsEscaped(parts);
    JavaNameLast(parts, prefix, suffix);
  }

  /** The Java name is the dotted join of all escaped components but the last,
      followed by the last one between prefix and suffix, unless it is empty. */
  lemma JavaNameLast(parts: seq<string>, prefix: string, suffix: string)
    requires |parts| >= 1
    ensures var fixed := LookupAll(parts); var n := |parts| - 1;
      JoinDotted(JavaPieces(parts, prefix, suffix)) ==
        AppendDotted(JoinDotted(fixed[..n]), if fixed[n] == "" then "" else prefix + fixed[n] + suffix)
  {
    var fixed := LookupAll(parts);
    var n := |parts| - 1;
    var pieces := JavaPieces(parts, prefix, suffix);
    assert pieces[..n] == fixed[..n];
    LookupKwdShape(parts[n]);
  }

  /** One turn of convertScopedName's loop before the last component: ':'
      is found right after the component, and the remaining components
      follow the "::". */
  lemma ConvertMiddleStep(fscoped: string, start: nat, fixed: seq<string>, k: nat)
    requires AllColonFree(fixed) && k + 1 < |fixed|
    requires start <= |fscoped| && fscoped[start..] == Join(fixed[k..], "::")
    ensures var e := start + |fixed[k]|;
      FindFirstOf(fscoped, {':'}, start) == Some(e) && e + 2 <= |fscoped| && fscoped[e + 1] == ':' &&
      fscoped[start..e] == fixed[k] && fscoped[e + 2..] == Join(fixed[k + 1..], "::")
  {
    var rest := fixed[k..];
    assert rest[0] == fixed[k];
    assert rest[1..] == fixed[k + 1..];
    NextComponent(fscoped, start, rest);
  }

  /** The last turn: no ':' is left, and what is left is the last escaped
      component. */
  lemma ConvertLastStep(fscoped: string, start: nat, fixed: seq<string>)
    requires AllColonFree(fixed) && |fixed| >= 1
    requires start <= |fscoped| && fscoped[start..] == Join(fixed[|fixed| - 1..], "::")
    ensures FindFirstOf(fscoped, {':'}, start) == None
    ensures fscoped[start..] == fixed[|fixed| - 1]
  {
    NextComponent(fscoped, start, fixed[|fixed| - 1..]);
  }

  /** fixKwd leaves every escaped component as it is. */
  lemma FixKwdKeepsEscaped(parts: seq<string>)
    requires AllColonFree(parts)
    ensures forall i | 0 <= i < |parts| :: FixKwd(LookupAll(parts)[i]) == LookupAll(parts)[i]
  {
    forall i | 0 <= i < |parts| ensures FixKwd(LookupAll(parts)[i]) == LookupAll(parts)[i] {
      FixKwdOfEscaped(parts[i]);
    }
  }

  /** convertScopedName: the Slice name as a Java qualified name, with every
      component escaped, "." between components, empty components dropped,
      and prefix and suffix around the last component. */
  method ConvertScopedName(scoped: string, prefix: string, suffix: string) returns (result: string)
    requires Lacks(scoped, ':') || IsScopedName(scoped)
    ensures result == JavaName(scoped, prefix, suffix)
  {
    ghost var fixed := ConvertSetup(scoped, prefix, suffix);
    ghost var n := |fixed| - 1;
    ghost var k := 0;
    result := "";
    var start: nat := 0;
    var fscoped := FixKwd(scoped);
    // Skip the leading "::".
    if |fscoped| > 0 && fscoped[start] == ':' {
      assert fscoped[start + 1] == ':';
      start := start + 2;
    }
    var more := true;
    while more
      invariant start <= |fscoped|
      invariant more ==> k <= n && fscoped[start..] == Join(fixed[k..], "::")
      invariant more ==> result == JoinDotted(fixed[..k])
      invariant !more ==> result == JavaName(scoped, prefix, suffix)
      decreases more, |fscoped| - start
    {
      if k == n {
        ConvertLastStep(fscoped, start, fixed);
      } else {
        ConvertMiddleStep(fscoped, start, fixed, k);
      }
      ghost var piece, target;
      var pos := FindFirstOf(fscoped, {':'}, start);
      var fix := "";
      if pos.None? {
        var s := fscoped[start..];
        if s != "" {
          fix := prefix + FixKwd(s) + suffix;
        }
        more := false;
        piece := if fixed[n] == "" then "" else prefix + fixed[n] + suffix;
        assert fix == piece;
        target := JavaName(scoped, prefix, suffix);
      } else {
        assert fscoped[pos.value + 1] == ':';
        fix := FixKwd(fscoped[start..pos.value]);
        start := pos.value + 2;
        piece := fixed[k];
        assert fix == piece;
        JoinDottedStep(fixed, k);
        target := JoinDotted(fixed[..k + 1]);
        k := k + 1;
      }
      assert target == AppendDotted(result, piece);
      if result != "" && fix != "" {
        result := result + ".";
      }
      result := result + fix;
      assert result == target;
    }
  }

  // ---------------------------------------------------------------------
  // What convertScopedName promises
  // ---------------------------------------------------------------------

  /** The non-empty pieces, in their order. */
  function NonEmpty(pieces: seq<string>): (r: seq<string>)
    ensures forall i | 0 <= i < |r| :: r[i] != "" && r[i] in pieces
    decreases |pieces|
  {
    if pieces == [] then []
    else
      var last := pieces[|pieces| - 1];
      NonEmpty(pieces[..|pieces| - 1]) + (if last == "" then [] else [last])
  }

  /** Filtering pieces that are all non-empty keeps them all. */
  lemma {:induction false} NonEmptyOfNonEmpty(pieces: seq<string>)
    requires forall i | 0 <= i < |pieces| :: pieces[i] != ""
    ensures NonEmpty(pieces) == pieces
    decreases |pieces|
  {
    if pieces != [] {
      NonEmptyOfNonEmpty(pieces[..|pieces| - 1]);
    }
  }

  /** A join starting with a non-empty part is not empty. */
  lemma JoinFirstNonEmpty(parts: seq<string>, sep: string)
    requires |parts| >= 1 && parts[0] != ""
    ensures Join(parts, sep) != ""
  {
    if |parts| > 1 {
      assert Join(parts, sep) == parts[0] + sep + Join(parts[1..], sep);
    }
  }

  /** Appending piece by piece, a "." only between two non-empty texts, is
      joining the non-empty pieces with ".". */
  lemma {:induction false} JoinDottedIsJoin(pieces: seq<string>)
    ensures JoinDotted(pieces) == Join(NonEmpty(pieces), ".")
    decreases |pieces|
  {
    if pieces != [] {
      var init := pieces[..|pieces| - 1];
      var last := pieces[|pieces| - 1];
      JoinDottedIsJoin(init);
      var kept := NonEmpty(init);
      assert JoinDotted(pieces) == AppendDotted(Join(kept, "."), last);
      if last == "" {
        assert NonEmpty(pieces) == kept;
      } else if kept == [] {
        assert NonEmpty(pieces) == [last];
      } else {
        assert NonEmpty(pieces) == kept + [last];
        JoinFirstNonEmpty(kept, ".");
        JoinSnoc(kept, last, ".");
      }
    }
  }

  /** No '.' at either end and no two '.' in a row: every piece between two
      dots is non-empty. */
  predicate NoStrayDot(s: string)
  {
    s == "" ||
    (s[0] != '.' && s[|s| - 1] != '.' &&
     forall i | 0 <= i < |s| - 1 :: s[i] == '.' ==> s[i + 1] != '.')
  }

  /** Non-empty pieces without a '.', joined with ".", have no stray dot. */
  lemma {:induction false} JoinNoStrayDot(parts: seq<string>)
    requires forall i | 0 <= i < |parts| :: parts[i] != "" && Lacks(parts[i], '.')
    ensures NoStrayDot(Join(parts, "."))
    decreases |parts|
  {
    if |parts| > 1 {
      JoinNoStrayDot(parts[1..]);
      var a := parts[0];
      var t := Join(parts[1..], ".");
      var s := Join(parts, ".");
      assert s == a + "." + t;
      assert t != "" by { JoinFirstNonEmpty(parts[1..], "."); }
      forall i | 0 <= i < |s| - 1
        ensures s[i] == '.' ==> s[i + 1] != '.'
      {
        if i < |a| {
          assert s[i] == a[i];
        } else if i == |a| {
          assert s[i + 1] == t[0];
        } else {
          assert s[i] == t[i - |a| - 1] && s[i + 1] == t[i - |a|];
        }
      }
    }
  }

  /** Text without a '.' put together stays without one. */
  lemma LacksConcat(a: string, b: string, c: char)
    requires Lacks(a, c) && Lacks(b, c)
    ensures Lacks(a + b, c)
  {
    forall k | 0 <= k < |a + b| ensures (a + b)[k] != c {
      if k >= |a| {
        assert (a + b)[k] == b[k - |a|];
      }
    }
  }

  /** The Java name of a scoped name: the pieces are the components of the
      Slice name, so the leading "::" is gone, and the non-empty ones are
      joined with ".". */
  lemma JavaNameIsJoin(ids: seq<string>, prefix: string, suffix: string)
    requires |ids| >= 1 && AllColonFree(ids)
    ensures JavaName(JoinScoped(ids), prefix, suffix) == Join(NonEmpty(JavaPieces(ids, prefix, suffix)), ".")
  {
    var s := JoinScoped(ids);
    ScopedComponentsOfJoin(ids);
    assert s[..2] == "::";
    assert s[0] == ':';
    assert Parts(s) == ids;
    JoinDottedIsJoin(JavaPieces(ids, prefix, suffix));
  }

  /** For a scoped name "::c0::...::cn" whose components are not empty, the
      Java name is c0, ..., c(n-1) escaped, then prefix, cn escaped, suffix,
      joined with ".": the leading "::" is dropped and prefix and suffix go
      around the last component only. */
  lemma JavaNameOfScoped(ids: seq<string>, prefix: string, suffix: string)
    requires |ids| >= 1 && AllColonFree(ids)
    requires forall i | 0 <= i < |ids| :: ids[i] != ""
    ensures var n := |ids| - 1;
      JavaName(JoinScoped(ids), prefix, suffix) ==
        Join(LookupAll(ids[..n]) + [prefix + LookupKwd(ids[n]) + suffix], ".")
  {
    JavaPiecesNonEmpty(ids, prefix, suffix);
    NonEmptyOfNonEmpty(JavaPieces(ids, prefix, suffix));
    JavaNameIsJoin(ids, prefix, suffix);
  }

  /** With non-empty components, the pieces are the escaped components, the
      last between prefix and suffix, and none of them is empty. */
  lemma JavaPiecesNonEmpty(ids: seq<string>, prefix: string, suffix: string)
    requires |ids| >= 1
    requires forall i | 0 <= i < |ids| :: ids[i] != ""
    ensures var n := |ids| - 1;
      JavaPieces(ids, prefix, suffix) == LookupAll(ids[..n]) + [prefix + LookupKwd(ids[n]) + suffix]
    ensures forall i | 0 <= i < |ids| :: JavaPieces(ids, prefix, suffix)[i] != ""
  {
    var n := |ids| - 1;
    var fixed := LookupAll(ids);
    assert fixed[..n] == LookupAll(ids[..n]);
    forall i | 0 <= i < |ids| ensures fixed[i] != "" {
      LookupKwdShape(ids[i]);
    }
  }

  /** A name without "::" is escaped and put between prefix and suffix. */
  lemma JavaNameOfPlain(name: string, prefix: string, suffix: string)
    requires name != "" && Lacks(name, ':')
    ensures JavaName(name, prefix, suffix) == prefix + LookupKwd(name) + suffix
  {
    var piece := prefix + LookupKwd(name) + suffix;
    assert Parts(name) == [name];
    LookupKwdShape(name);
    assert JavaPieces([name], prefix, suffix) == [piece];
    assert [piece][..0] == [];
    assert JoinDotted([piece]) == AppendDotted("", piece);
  }

  /** Escaping adds no '.'. */
  lemma LookupKwdLacks(name: string, c: char)
    requires c != '_' && Lacks(name, c)
    ensures Lacks(LookupKwd(name), c)
  {
    LookupKwdSpec(name);
    if IsKeyword(name) {
      LacksConcat("_", name, c);
    }
  }

  /** The pieces of components, prefix and suffix free of '.' are free of '.'. */
  lemma JavaPiecesLack(ids: seq<string>, prefix: string, suffix: string)
    requires |ids| >= 1
    requires forall i | 0 <= i < |ids| :: Lacks(ids[i], '.')
    requires Lacks(prefix, '.') && Lacks(suffix, '.')
    ensures forall i | 0 <= i < |ids| :: Lacks(JavaPieces(ids, prefix, suffix)[i], '.')
  {
    var n := |ids| - 1;
    var fixed := LookupAll(ids);
    forall i | 0 <= i < |ids| ensures Lacks(fixed[i], '.') {
      LookupKwdLacks(ids[i], '.');
    }
    LacksConcat(prefix, fixed[n], '.');
    LacksConcat(prefix + fixed[n], suffix, '.');
  }

  /** With components, prefix and suffix free of '.', the Java name has no
      leading, trailing or doubled '.', whatever components are empty. */
  lemma JavaNameNoStrayDot(ids: seq<string>, prefix: string, suffix: string)
    requires |ids| >= 1 && AllColonFree(ids)
    requires forall i | 0 <= i < |ids| :: Lacks(ids[i], '.')
    requires Lacks(prefix, '.') && Lacks(suffix, '.')
    ensures NoStrayDot(JavaName(JoinScoped(ids), prefix, suffix))
  {
    var pieces := JavaPieces(ids, prefix, suffix);
    JavaPiecesLack(ids, prefix, suffix);
    var kept := NonEmpty(pieces);
    forall i | 0 <= i < |kept| ensures Lacks(kept[i], '.') {
      var j :| 0 <= j < |pieces| && pieces[j] == kept[i];
    }
    JoinNoStrayDot(kept);
    JavaNameIsJoin(ids, prefix, suffix);
  }
}
