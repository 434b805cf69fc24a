/**
 * OPC UA node identifiers: the text form the OPC UA client library prints for
 * a NodeId (`ns=<index>;<type>=<value>`, the namespace part omitted for
 * namespace 0, after section 5.3.1.10 of OPC UA Part 6), and the repository's
 * own regular-expression parser `ParseNodeIDString` that splits such a text
 * back into its parts.
 */
module NodeIds {
  import opened Wrappers
  import opened Numerals

  /** The parts stored in the `namespace`, `identifier_type` and `identifier` columns. */
  datatype NodeIdParts = NodeIdParts(namespace: int, identifierType: string, identifier: string)

  /**
   * A NodeId as the client library holds it: a numeric identifier, or a
   * string, GUID or byte-string identifier whose `text` is already in printed
   * form (kind 's', 'g' or 'b').
   */
  datatype NodeId =
    | Numeric(ns: nat, value: nat)
    | Opaque(ns: nat, kind: char, text: string)

  /** `NodeID.String()` of the client library. */
  function NodeIdString(id: NodeId): string {
    (if id.ns == 0 then "" else "ns=" + NatDigits(id.ns) + ";")
    + match id
      case Numeric(_, v) => "i=" + NatDigits(v)
      case Opaque(_, k, t) => [k] + "=" + t
  }

  /** `NodeID.IntID()`: the numeric identifier, or 0 for any other kind; the namespace is ignored. */
  function IntId(id: NodeId): nat {
    if id.Numeric? then id.value else 0
  }

  datatype ParseError = InvalidFormat

  predicate IsTypeLetter(c: char) {
    c == 'i' || c == 's' || c == 'g' || c == 'b'
  }

  /** Length of the run of decimal digits at the start of s. */
  function LeadingDigits(s: string): (n: nat)
    ensures n <= |s| && AllDigits(s[..n])
    ensures n < |s| ==> !IsDigit(s[n])
  {
    if s != [] && IsDigit(s[0]) then
      var n := 1 + LeadingDigits(s[1..]);
      assert s[..n] == [s[0]] + s[1..][..n - 1];
      n
    else 0
  }

  /**
   * Length of a leading `ns=<digits>;` group of s, or 0 when s does not start
   * with one. The digit run must be followed directly by ';', so `\d+` has
   * only one way to match.
   */
  function NamespacePrefixLength(s: string): (n: nat)
    ensures n <= |s|
    ensures n > 0 ==> n >= 5 && s[..3] == "ns=" && s[n - 1] == ';'
    ensures n > 0 ==> s[3..n - 1] != [] && AllDigits(s[3..n - 1])
  {
    if |s| >= 3 && s[..3] == "ns=" then
      var k := LeadingDigits(s[3..]);
      if k > 0 && 3 + k < |s| && s[3 + k] == ';' then
        assert s[3..4 + k - 1] == s[3..][..k];
        4 + k
      else 0
    else 0
  }

  /**
   * `ParseNodeIDString`: the match of `^(?:ns=(\d+);)?([isgb]=)?(.+)$` with
   * leftmost-first preference. `.` does not match a newline, so any newline,
   * like the empty text, leaves nothing to match. Each optional group is taken
   * when the rest of the pattern can still match after it, that is, when a
   * non-empty identifier is left over; otherwise its text falls into the
   * identifier. The namespace is read as by `Sscanf("%d")`.
   */
  function ParseNodeIdString(s: string): (r: Result<NodeIdParts, ParseError>)
  {
    if s == [] || '\n' in s then Failure(InvalidFormat)
    else
      var p := NamespacePrefixLength(s);
      var nsLength := if p < |s| then p else 0;
      var ns := if nsLength > 0 then ScanInt(s[3..nsLength - 1]) else 0;
      var rest := s[nsLength..];
      if |rest| > 2 && IsTypeLetter(rest[0]) && rest[1] == '=' then
        Success(NodeIdParts(ns, rest[..1], rest[2..]))
      else
        Success(NodeIdParts(ns, "", rest))
  }

  /** The parser fails exactly on the empty text and on text holding a newline. */
  lemma ParseFailsExactly(s: string)
    ensures ParseNodeIdString(s).Failure? <==> s == [] || '\n' in s
  {
  }

  /**
   * What a successful parse yields: a namespace of at most 2^63-1, an
   * identifier type that is empty or one of the letters i, s, g, b, and a
   * non-empty identifier that ends the text, preceded by the type letter and
   * '=' when a type was recognised.
   */
  lemma ParseResultShape(s: string)
    requires ParseNodeIdString(s).Success?
    ensures var p := ParseNodeIdString(s).value;
      && 0 <= p.namespace <= MaxInt64
      && (p.identifierType == "" || (|p.identifierType| == 1 && IsTypeLetter(p.identifierType[0])))
      && p.identifier != []
      && |p.identifier| <= |s| && s[|s| - |p.identifier|..] == p.identifier
      && (p.identifierType != "" ==>
            |s| >= |p.identifier| + 2 && s[|s| - |p.identifier| - 2..|s| - |p.identifier|] == p.identifierType + "=")
  {
  }

  lemma LeadingDigitsBeforeSemicolon(d: string, rest: string)
    requires d != [] && AllDigits(d)
    ensures LeadingDigits(d + ";" + rest) == |d|
    decreases |d|
  {
    var s := d + ";" + rest;
    if |d| > 1 {
      assert s[1..] == d[1..] + ";" + rest;
      LeadingDigitsBeforeSemicolon(d[1..], rest);
    } else {
      assert s[1..] == ";" + rest;
    }
  }

  /** The parts a NodeId is split into when its text is parsed back. */
  function PartsOf(id: NodeId): NodeIdParts {
    match id
    case Numeric(ns, v) => NodeIdParts(ns, "i", NatDigits(v))
    case Opaque(ns, k, t) => NodeIdParts(ns, [k], t)
  }

  /** A NodeId the parser can take back apart: no newline in its value, a real type letter. */
  predicate Parsable(id: NodeId) {
    id.ns <= MaxInt64 &&
    (id.Opaque? ==> IsTypeLetter(id.kind) && id.text != [] && '\n' !in id.text)
  }

  /** The part of the printed form after the namespace group. */
  function PrintedTail(id: NodeId): (tail: string)
    requires Parsable(id)
    ensures |tail| > 2 && IsTypeLetter(tail[0]) && tail[1] == '=' && '\n' !in tail
    ensures tail[..1] == PartsOf(id).identifierType && tail[2..] == PartsOf(id).identifier
  {
    match id
    case Numeric(_, v) =>
      var t := "i=" + NatDigits(v);
      assert forall i :: 2 <= i < |t| ==> t[i] == NatDigits(v)[i - 2];
      assert t[2..] == NatDigits(v);
      t
    case Opaque(_, k, x) =>
      var t := [k] + "=" + x;
      assert forall i :: 2 <= i < |t| ==> t[i] == x[i - 2];
      assert t[2..] == x;
      t
  }

  /** The parser on a text whose namespace group is known and whose rest starts with a type group. */
  lemma ParseTypedRest(s: string, n: nat)
    requires s != [] && '\n' !in s
    requires NamespacePrefixLength(s) == n && n < |s|
    requires |s[n..]| > 2 && IsTypeLetter(s[n]) && s[n + 1] == '='
    ensures ParseNodeIdString(s)
      == Success(NodeIdParts(if n > 0 then ScanInt(s[3..n - 1]) else 0, s[n..n + 1], s[n + 2..]))
  {
    assert s[n..][..1] == s[n..n + 1];
    assert s[n..][2..] == s[n + 2..];
  }

  /** A text holding no namespace group and a typed identifier. */
  lemma ParseWithoutNamespace(tail: string)
    requires |tail| > 2 && IsTypeLetter(tail[0]) && tail[1] == '=' && '\n' !in tail
    ensures ParseNodeIdString(tail) == Success(NodeIdParts(0, tail[..1], tail[2..]))
  {
    assert tail[..3] != "ns=" by { assert tail[0] != 'n'; }
    ParseTypedRest(tail, 0);
    assert tail[0..] == tail;
  }

  /** A text made of a namespace group `ns=<d>;` and a typed identifier. */
  lemma ParseWithNamespace(d: string, tail: string)
    requires d != [] && AllDigits(d)
    requires |tail| > 2 && IsTypeLetter(tail[0]) && tail[1] == '=' && '\n' !in tail
    ensures ParseNodeIdString("ns=" + d + ";" + tail) == Success(NodeIdParts(ScanInt(d), tail[..1], tail[2..]))
  {
    var s := "ns=" + d + ";" + tail;
    assert s[..3] == "ns=";
    assert s[3..] == d + ";" + tail;
    LeadingDigitsBeforeSemicolon(d, tail);
    var n := 4 + |d|;
    assert NamespacePrefixLength(s) == n;
    assert s[3..n - 1] == d;
    assert s[n..] == tail;
    assert '\n' !in s by {
      forall i | 0 <= i < |s| ensures s[i] != '\n' {
        if i < 3 { } else if i < 3 + |d| { assert s[i] == d[i - 3]; }
        else if i == 3 + |d| { } else { assert s[i] == tail[i - n]; }
      }
    }
    ParseTypedRest(s, n);
    assert s[n..n + 1] == tail[..1];
    assert s[n + 2..] == tail[2..];
  }

  /**
   * Round trip: parsing the printed form of a NodeId gives back its namespace,
   * its type letter and its value.
   */
  lemma ParsePrintedNodeId(id: NodeId)
    requires Parsable(id)
    ensures ParseNodeIdString(NodeIdString(id)) == Success(PartsOf(id))
  {
    var tail := PrintedTail(id);
    if id.ns == 0 {
      assert NodeIdString(id) == tail;
      ParseWithoutNamespace(tail);
    } else {
      var d := NatDigits(id.ns);
      assert NodeIdString(id) == "ns=" + d + ";" + tail;
      ParseWithNamespace(d, tail);
    }
  }

  /**
   * A bare namespace group leaves no identifier behind, so the regular
   * expression backtracks and the whole text becomes the identifier.
   */
  lemma ParseBareNamespace()
    ensures ParseNodeIdString("ns=2;") == Success(NodeIdParts(0, "", "ns=2;"))
  {
    var a := "ns=2;";
    assert a[..3] == "ns=" && a[3..] == "2;";
    assert LeadingDigits("2;") == 1 by { assert "2;"[1..] == ";"; }
    assert NamespacePrefixLength(a) == 5;
    assert a[0..] == a;
  }

  /** A bare type group after a namespace becomes the identifier in the same way. */
  lemma ParseBareTypeAfterNamespace()
    ensures ParseNodeIdString("ns=2;i=") == Success(NodeIdParts(2, "", "i="))
  {
    var b := "ns=2;i=";
    assert b[..3] == "ns=" && b[3..] == "2;i=";
    assert LeadingDigits("2;i=") == 1 by { assert "2;i="[1..] == ";i="; }
    assert NamespacePrefixLength(b) == 5;
    assert b[3..4] == "2";
    assert DecimalValue("2") == 2 by { assert "2"[..0] == []; }
    assert b[5..] == "i=";
  }
}
