/**
 * The C identifier derived from an uploaded file's name: the extension is
 * stripped with `/\.[^/.]+$/`, then every character outside `[A-Za-z0-9_]`
 * becomes `_` (the global replace `/[^a-zA-Z0-9_]/g`).
 */
module Naming {
  import opened Wrappers

  predicate IsWordChar(c: char)
  {
    ('a' <= c <= 'z') || ('A' <= c <= 'Z') || ('0' <= c <= '9') || c == '_'
  }

  /** Only `[A-Za-z0-9_]`; possibly empty, as for the name `.bmp`. */
  predicate IsIdentifier(s: string)
  {
    forall i :: 0 <= i < |s| ==> IsWordChar(s[i])
  }

  /**
   * `/\.[^/.]+$/` matches at `p`: a dot, then one or more characters none of
   * which is a dot or a slash, running to the end of the string.
   */
  predicate ExtensionAt(s: string, p: nat)
  {
    p + 1 < |s| && s[p] == '.' && forall q :: p < q < |s| ==> s[q] != '.' && s[q] != '/'
  }

  /** The pattern can match at one position at most, so the leftmost match is the only one. */
  lemma ExtensionAtUnique(s: string, p: nat, p': nat)
    requires ExtensionAt(s, p) && ExtensionAt(s, p')
    ensures p == p'
  {
  }

  /**
   * Scans leftward from `i`, where everything at or after `i` is neither a
   * dot nor a slash: the first dot met starts the extension unless it is the
   * last character; a slash met first means there is none.
   */
  function FindExtension(s: string, i: nat): (r: Option<nat>)
    requires i <= |s|
    requires forall q :: i <= q < |s| ==> s[q] != '.' && s[q] != '/'
    ensures r.Some? ==> ExtensionAt(s, r.value)
    ensures r.None? ==> forall p: nat :: !ExtensionAt(s, p)
    decreases i
  {
    if i == 0 then None
    else if s[i - 1] == '/' then None
    else if s[i - 1] == '.' then (if i < |s| then Some(i - 1) else None)
    else FindExtension(s, i - 1)
  }

  /** `s.replace(/\.[^/.]+$/, "")` */
  function StripExtension(s: string): (r: string)
    ensures |r| <= |s| && r == s[..|r|]
    ensures forall p: nat :: ExtensionAt(s, p) ==> r == s[..p]
    ensures (forall p: nat :: !ExtensionAt(s, p)) ==> r == s
  {
    match FindExtension(s, |s|)
    case Some(p) =>
      assert forall p': nat :: ExtensionAt(s, p') ==> p' == p by {
        forall p': nat | ExtensionAt(s, p') ensures p' == p {
          ExtensionAtUnique(s, p, p');
        }
      }
      s[..p]
    case None => s
  }

  // ---------------------------------------------------------------------
  // UTF-16: JavaScript strings are sequences of 16-bit code units, and a
  // regular expression without the `u` flag matches one code unit at a time.

  /** The UTF-16 code units of one character: a surrogate pair above U+FFFF. */
  function CodeUnits(c: char): (u: seq<nat>)
    ensures 1 <= |u| <= 2
    ensures |u| == 1 <==> (c as int) < 0x10000
    ensures |u| == 1 ==> u[0] == c as int
    ensures |u| == 2 ==> 0xD800 <= u[0] < 0xDC00 && 0xDC00 <= u[1] < 0xE000
  {
    if (c as int) < 0x10000 then [c as int]
    else
      var x := c as int - 0x10000;
      [0xD800 + x / 0x400, 0xDC00 + x % 0x400]
  }

  /** The code units of a string, as JavaScript stores it. */
  function Utf16(s: string): (units: seq<nat>)
    ensures |units| >= |s|
  {
    if s == [] then [] else CodeUnits(s[0]) + Utf16(s[1..])
  }

  lemma {:induction false} Utf16Append(a: string, b: string)
    ensures Utf16(a + b) == Utf16(a) + Utf16(b)
    decreases |a|
  {
    if a == [] {
      assert a + b == b;
    } else {
      assert (a + b)[0] == a[0] && (a + b)[1..] == a[1..] + b;
      Utf16Append(a[1..], b);
    }
  }

  /** Two characters whose code units start two equal unit sequences are equal, as are the rests. */
  lemma CodeUnitsPrefix(c: char, d: char, u: seq<nat>, w: seq<nat>)
    requires CodeUnits(c) + u == CodeUnits(d) + w
    ensures c == d && u == w
  {
    var cu, du := CodeUnits(c), CodeUnits(d);
    assert (cu + u)[0] == cu[0] && (du + w)[0] == du[0];
    if (c as int) < 0x10000 && (d as int) < 0x10000 {
      assert c as int == d as int;
      assert u == (cu + u)[1..] == (du + w)[1..] == w;
    } else if (c as int) >= 0x10000 && (d as int) >= 0x10000 {
      assert (cu + u)[1] == cu[1] && (du + w)[1] == du[1];
      var x, y := c as int - 0x10000, d as int - 0x10000;
      assert x / 0x400 == y / 0x400 && x % 0x400 == y % 0x400;
      assert x == 0x400 * (x / 0x400) + x % 0x400;
      assert y == 0x400 * (y / 0x400) + y % 0x400;
      assert u == (cu + u)[2..] == (du + w)[2..] == w;
    }
  }

  /** Distinct strings have distinct code units: the UTF-16 view loses nothing. */
  lemma {:induction false} Utf16Injective(a: string, b: string)
    requires Utf16(a) == Utf16(b)
    ensures a == b
    decreases |a|
  {
    if a != [] && b != [] {
      CodeUnitsPrefix(a[0], b[0], Utf16(a[1..]), Utf16(b[1..]));
      Utf16Injective(a[1..], b[1..]);
      assert a == [a[0]] + a[1..] && b == [b[0]] + b[1..];
    }
  }

  /** A code unit the class `[a-zA-Z0-9_]` matches. */
  predicate IsWordUnit(u: nat)
  {
    48 <= u <= 57 || 65 <= u <= 90 || 97 <= u <= 122 || u == 95
  }

  /** `/[^a-zA-Z0-9_]/g` replaced by `_`, applied to code units as JavaScript does. */
  function ReplaceUnits(units: seq<nat>): (r: seq<nat>)
    ensures |r| == |units|
    ensures forall i :: 0 <= i < |units| ==> r[i] == if IsWordUnit(units[i]) then units[i] else 95
  {
    seq(|units|, i requires 0 <= i < |units| => if IsWordUnit(units[i]) then units[i] else 95)
  }

  lemma ReplaceUnitsAppend(a: seq<nat>, b: seq<nat>)
    ensures ReplaceUnits(a + b) == ReplaceUnits(a) + ReplaceUnits(b)
  {
  }

  /**
   * What the replacement makes of one character: the character itself if it
   * is a word character, otherwise one `_` per code unit, so two for a
   * character above U+FFFF.
   */
  function Replaced(c: char): (piece: string)
    ensures IsIdentifier(piece)
    ensures Utf16(piece) == ReplaceUnits(CodeUnits(c))
  {
    if IsWordChar(c) then
      assert Utf16([c]) == CodeUnits(c) + Utf16([]);
      [c]
    else
      var piece := seq(|CodeUnits(c)|, _ => '_');
      assert Utf16(['_']) == [95];
      assert |piece| == 2 ==> Utf16(piece) == [95] + Utf16(['_']);
      piece
  }

  /** `s.replace(/[^a-zA-Z0-9_]/g, "_")` */
  function ReplaceNonWord(s: string): (r: string)
    ensures IsIdentifier(r)
    ensures Utf16(r) == ReplaceUnits(Utf16(s))
  {
    if s == [] then []
    else
      var head, tail := Replaced(s[0]), ReplaceNonWord(s[1..]);
      Utf16Append(head, tail);
      ReplaceUnitsAppend(CodeUnits(s[0]), Utf16(s[1..]));
      head + tail
  }

  /** A character outside the Basic Multilingual Plane becomes two underscores. */
  lemma AstralNameTwoUnderscores()
    ensures VariableName("\U{1F600}.bmp") == "__"
  {
    var name := "\U{1F600}.bmp";
    assert ExtensionAt(name, 1);
    assert name[..1] == "\U{1F600}";
    assert Replaced('\U{1F600}') == "__";
    assert ReplaceNonWord("\U{1F600}") == Replaced('\U{1F600}') + ReplaceNonWord([]);
  }

  /**
   * The identifier the converter declares for a file name: the stem before
   * the extension match, with every code unit outside `[A-Za-z0-9_]` turned
   * into `_`.
   */
  function VariableName(fileName: string): (name: string)
    ensures IsIdentifier(name)
    ensures forall p: nat :: ExtensionAt(fileName, p) ==> Utf16(name) == ReplaceUnits(Utf16(fileName[..p]))
    ensures (forall p: nat :: !ExtensionAt(fileName, p)) ==> Utf16(name) == ReplaceUnits(Utf16(fileName))
    ensures |Utf16(name)| <= |Utf16(fileName)|
  {
    var stem := StripExtension(fileName);
    assert fileName == stem + fileName[|stem|..];
    Utf16Append(stem, fileName[|stem|..]);
    ReplaceNonWord(stem)
  }

  /** An identifier passes the replacement unchanged. */
  lemma {:induction false} ReplaceKeepsIdentifier(s: string)
    requires IsIdentifier(s)
    ensures ReplaceNonWord(s) == s
  {
    if s != [] {
      ReplaceKeepsIdentifier(s[1..]);
    }
  }

  /** Deriving the variable name from a derived variable name changes nothing. */
  lemma VariableNameIdempotent(fileName: string)
    ensures VariableName(VariableName(fileName)) == VariableName(fileName)
  {
    var name := VariableName(fileName);
    forall p: nat | p < |name| ensures name[p] != '.' {
      assert IsWordChar(name[p]);
    }
    ReplaceKeepsIdentifier(name);
  }
}
