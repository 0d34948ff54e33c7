/**
 * The text of the C declaration the converter emits:
 *
 *   // array size is N
 *   int16_t NAME[] PROGMEM = {
 *     0xhhhh, 0xhhhh, ...
 *   };
 *
 * with the writer's pieces and, as their independent partner, a reader that
 * recovers the size, the name and the 16-bit values from the text.
 */
module CArraySyntax {
  import opened Wrappers
  import opened NumberText
  import opened Naming

  datatype Declaration = Declaration(size: nat, name: string, values: seq<nat>)

  const SizeComment := "// array size is "
  const TypeKeyword := "\nint16_t "
  const Opening := "[] PROGMEM = {\n  "
  const Closing := "\n};"
  const Separator := ", "

  /** `'0x' + v.toString(16).padStart(4, '0')` */
  function HexLiteral(v: nat): (lit: string)
    ensures |lit| >= 6 && lit[..2] == "0x"
    ensures v < 65536 ==> IsLiteral(lit) && ValueOf(lit[2..], 16) == v
  {
    var digits := ToRadix(v, 16);
    var lit := "0x" + PadStart(digits, 4, '0');
    if v < 65536 then
      ToRadixLength(v, 16, 4);
      ToRadixRoundTrip(v, 16);
      HexLiteralDigits(digits, lit);
      lit
    else lit
  }

  lemma HexLiteralDigits(digits: string, lit: string)
    requires 1 <= |digits| <= 4 && AreDigits(digits, 16)
    requires lit == "0x" + PadStart(digits, 4, '0')
    ensures IsLiteral(lit) && ValueOf(lit[2..], 16) == ValueOf(digits, 16)
  {
    var padded := PadStart(digits, 4, '0');
    var zeros := padded[..4 - |digits|];
    assert padded == zeros + digits;
    assert lit[2..] == padded;
    LeadingZeros(zeros, digits, 16);
    forall i | 0 <= i < 4 ensures IsDigit(padded[i], 16) {
      if i >= 4 - |digits| {
        assert padded[i] == digits[i - (4 - |digits|)];
      }
    }
  }

  /** The literals of `values`, in order. */
  function HexLiterals(values: seq<nat>): (lits: seq<string>)
    ensures |lits| == |values|
    ensures forall k :: 0 <= k < |values| ==> lits[k] == HexLiteral(values[k])
  {
    seq(|values|, k requires 0 <= k < |values| => HexLiteral(values[k]))
  }

  /**
   * The declaration around an already formatted list of literals, the
   * template `// array size is ${size}\nint16_t ${name}[] PROGMEM = {\n  ${body}\n};`
   */
  function Declare(size: nat, name: string, body: string): (text: string)
    ensures |text| == |SizeComment| + |ToRadix(size, 10)| + |TypeKeyword| + |name| + |Opening| + |body| + |Closing|
    ensures text[..|SizeComment|] == SizeComment
    ensures text[|text| - |Closing|..] == Closing
    ensures
      var digits := ToRadix(size, 10);
      var afterSize := |SizeComment| + |digits|;
      var afterType := afterSize + |TypeKeyword|;
      var afterName := afterType + |name|;
      var afterOpening := afterName + |Opening|;
      && text[|SizeComment|..afterSize] == digits
      && text[afterSize..afterType] == TypeKeyword
      && text[afterType..afterName] == name
      && text[afterName..afterOpening] == Opening
      && text[afterOpening..afterOpening + |body|] == body
  {
    var digits := ToRadix(size, 10);
    var fromOpening := Opening + (body + Closing);
    var fromName := name + fromOpening;
    var fromType := TypeKeyword + fromName;
    var fromSize := digits + fromType;
    var text := SizeComment + fromSize;
    PieceAt(SizeComment, digits, fromType);
    PieceAt(SizeComment + digits, TypeKeyword, fromName);
    PieceAt(SizeComment + digits + TypeKeyword, name, fromOpening);
    PieceAt(SizeComment + digits + TypeKeyword + name, Opening, body + Closing);
    PieceAt(SizeComment + digits + TypeKeyword + name + Opening, body, Closing);
    text
  }

  /** The middle piece of a three-part concatenation sits right after the first. */
  lemma PieceAt(front: string, piece: string, back: string)
    ensures front + (piece + back) == front + piece + back
    ensures (front + piece + back)[|front|..|front| + |piece|] == piece
  {
  }

  // ---------------------------------------------------------------------
  // Reading the text back

  /** `0x` followed by four hexadecimal digits. */
  predicate IsLiteral(s: string)
  {
    |s| == 6 && s[..2] == "0x" && AreDigits(s[2..], 16)
  }

  /** Length of the leading run of decimal digits. */
  function DecimalRun(s: string): (n: nat)
    ensures n <= |s|
  {
    if s != [] && IsDigit(s[0], 10) then 1 + DecimalRun(s[1..]) else 0
  }

  /** Length of the leading run of `[A-Za-z0-9_]`. */
  function IdentifierRun(s: string): (n: nat)
    ensures n <= |s|
  {
    if s != [] && IsWordChar(s[0]) then 1 + IdentifierRun(s[1..]) else 0
  }

  /** Literals separated by `, `; nothing for an empty body. */
  function ReadLiterals(body: string): (values: Option<seq<nat>>)
    decreases |body|
  {
    if body == [] then Some([])
    else if |body| < 6 || !IsLiteral(body[..6]) then None
    else
      var v := ValueOf(body[2..6], 16);
      if |body| == 6 then Some([v])
      else if |body| <= 8 || body[6..8] != Separator then None
      else
        match ReadLiterals(body[8..])
        case None => None
        case Some(vs) => Some([v] + vs)
  }

  /** Parses a declaration in the converter's layout. */
  function Read(text: string): (d: Option<Declaration>)
  {
    if |text| < |SizeComment| || text[..|SizeComment|] != SizeComment then None
    else ReadSize(text[|SizeComment|..])
  }

  /** The element count, written without leading zeros, then the type keyword. */
  function ReadSize(t: string): (d: Option<Declaration>)
  {
    var n := DecimalRun(t);
    var rest := t[n..];
    if n == 0 || (n > 1 && t[0] == '0') || |rest| < |TypeKeyword| || rest[..|TypeKeyword|] != TypeKeyword then None
    else ReadName(ValueOf(t[..n], 10), rest[|TypeKeyword|..])
  }

  /** The identifier, then the braces around the literals. */
  function ReadName(size: nat, t: string): (d: Option<Declaration>)
  {
    var m := IdentifierRun(t);
    var rest := t[m..];
    if |rest| < |Opening| + |Closing| || rest[..|Opening|] != Opening
      || rest[|rest| - |Closing|..] != Closing then None
    else
      match ReadLiterals(rest[|Opening|..|rest| - |Closing|])
      case None => None
      case Some(values) => Some(Declaration(size, t[..m], values))
  }

  // ---------------------------------------------------------------------
  // The reader inverts the writer

  lemma {:induction false} DecimalRunOf(d: string, rest: string)
    requires AreDigits(d, 10) && (rest == [] || !IsDigit(rest[0], 10))
    ensures DecimalRun(d + rest) == |d|
    decreases |d|
  {
    if d == [] {
      assert d + rest == rest;
    } else {
      assert (d + rest)[1..] == d[1..] + rest;
      DecimalRunOf(d[1..], rest);
    }
  }

  lemma {:induction false} IdentifierRunOf(name: string, rest: string)
    requires IsIdentifier(name) && (rest == [] || !IsWordChar(rest[0]))
    ensures IdentifierRun(name + rest) == |name|
    decreases |name|
  {
    if name == [] {
      assert name + rest == rest;
    } else {
      assert (name + rest)[1..] == name[1..] + rest;
      IdentifierRunOf(name[1..], rest);
    }
  }

  /** Joined literals of 16-bit values read back as those values. */
  lemma {:induction false} ReadJoinedLiterals(values: seq<nat>)
    requires forall k :: 0 <= k < |values| ==> values[k] < 65536
    ensures |Join(HexLiterals(values), Separator)| >= 6 * |values|
    ensures ReadLiterals(Join(HexLiterals(values), Separator)) == Some(values)
    decreases |values|
  {
    if |values| == 1 {
      ReadJoinedOne(values);
    } else if |values| > 1 {
      ReadJoinedLiterals(values[1..]);
      ReadJoinedCons(values);
    }
  }

  lemma ReadJoinedOne(values: seq<nat>)
    requires |values| == 1 && values[0] < 65536
    ensures |Join(HexLiterals(values), Separator)| >= 6
    ensures ReadLiterals(Join(HexLiterals(values), Separator)) == Some(values)
  {
    assert Join(HexLiterals(values), Separator) == HexLiteral(values[0]);
    ReadLiteralsOne(HexLiteral(values[0]));
    assert values == [values[0]];
  }

  /** One more literal in front of a readable list of literals. */
  lemma ReadJoinedCons(values: seq<nat>)
    requires |values| > 1 && values[0] < 65536
    requires |Join(HexLiterals(values[1..]), Separator)| >= 6 * (|values| - 1)
    requires ReadLiterals(Join(HexLiterals(values[1..]), Separator)) == Some(values[1..])
    ensures |Join(HexLiterals(values), Separator)| >= 6 * |values|
    ensures ReadLiterals(Join(HexLiterals(values), Separator)) == Some(values)
  {
    var rest := Join(HexLiterals(values[1..]), Separator);
    JoinedLiteralsCons(values);
    ReadLiteralsCons(HexLiteral(values[0]), rest, values[1..]);
    assert [values[0]] + values[1..] == values;
  }

  /** The joined literals are the first literal, a separator, then the rest joined. */
  lemma JoinedLiteralsCons(values: seq<nat>)
    requires |values| > 1
    ensures Join(HexLiterals(values), Separator)
      == HexLiteral(values[0]) + Separator + Join(HexLiterals(values[1..]), Separator)
  {
    assert HexLiterals(values)[1..] == HexLiterals(values[1..]);
  }

  /** A lone literal reads as its value. */
  lemma ReadLiteralsOne(lit: string)
    requires IsLiteral(lit)
    ensures ReadLiterals(lit) == Some([ValueOf(lit[2..], 16)])
  {
    assert lit[..6] == lit && lit[2..6] == lit[2..];
  }

  /** A literal, a separator and a readable list read as that literal's value before the list. */
  lemma ReadLiteralsCons(lit: string, rest: string, vs: seq<nat>)
    requires IsLiteral(lit) && |rest| >= 6 && ReadLiterals(rest) == Some(vs)
    ensures ReadLiterals(lit + Separator + rest) == Some([ValueOf(lit[2..], 16)] + vs)
  {
    var body := lit + Separator + rest;
    assert body[..6] == lit && body[2..6] == lit[2..];
    assert body[6..8] == Separator && body[8..] == rest;
  }

  lemma ReadNameOf(size: nat, name: string, body: string, values: seq<nat>)
    requires IsIdentifier(name) && ReadLiterals(body) == Some(values)
    ensures ReadName(size, name + (Opening + (body + Closing))) == Some(Declaration(size, name, values))
  {
    var t4 := Opening + (body + Closing);
    var t := name + t4;
    IdentifierRunOf(name, t4);
    assert t[..|name|] == name && t[|name|..] == t4;
    assert t4[..|Opening|] == Opening;
    assert t4[|t4| - |Closing|..] == Closing;
    assert t4[|Opening|..|t4| - |Closing|] == body;
  }

  lemma ReadSizeOf(size: nat, rest: string)
    requires ReadName(size, rest).Some?
    ensures ReadSize(ToRadix(size, 10) + (TypeKeyword + rest)) == ReadName(size, rest)
  {
    var d := ToRadix(size, 10);
    var t2 := TypeKeyword + rest;
    var t := d + t2;
    ToRadixRoundTrip(size, 10);
    DecimalRunOf(d, t2);
    assert t[..|d|] == d && t[|d|..] == t2;
    assert t2[..|TypeKeyword|] == TypeKeyword && t2[|TypeKeyword|..] == rest;
  }

  /** Reading a written declaration gives back its size, name and values. */
  lemma ReadDeclare(size: nat, name: string, values: seq<nat>)
    requires IsIdentifier(name)
    requires forall k :: 0 <= k < |values| ==> values[k] < 65536
    ensures Read(Declare(size, name, Join(HexLiterals(values), Separator)))
      == Some(Declaration(size, name, values))
  {
    var body := Join(HexLiterals(values), Separator);
    ReadJoinedLiterals(values);
    ReadNameOf(size, name, body, values);
    var rest := name + (Opening + (body + Closing));
    ReadSizeOf(size, rest);
    var t1 := ToRadix(size, 10) + (TypeKeyword + rest);
    var text := Declare(size, name, body);
    assert text[..|SizeComment|] == SizeComment && text[|SizeComment|..] == t1;
  }
}
