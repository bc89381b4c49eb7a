/**
 * The mesh record and the line loop of the OBJ-subset loader: every line is matched
 * against the pattern `^(.?) ([-.0-9]+) ([-.0-9]+) ([-.0-9]+)$`; a `v` line appends a
 * vertex, an `f` line appends a face with its 1-based indices made 0-based, and every
 * other line is skipped. A failed number parse or an index of 0 panics, which the
 * model returns as a `Failure`.
 */
module Mesh {
  import opened Wrappers
  import opened Numeric
  import opened Vectors

  /** Three 0-based indices into the vertex list. */
  type Face = (nat, nat, nat)

  datatype Model = Model(verts: seq<Vertex>, faces: seq<Face>)

  /** `Model::new`. */
  function NewModel(): (m: Model)
    ensures |m.verts| == 0 && |m.faces| == 0
  {
    Model([], [])
  }

  /** Why loading panicked: a coordinate or an index that does not parse, or index 0. */
  datatype LoadError = BadCoordinate(token: string) | BadIndex(token: string) | IndexUnderflow

  // ---------------------------------------------------------------- the line pattern

  /** The four capture groups of a matching line. */
  datatype Fields = Fields(tag: string, t0: string, t1: string, t2: string)

  /** The class `[-.0-9]`. */
  predicate IsNumeral(c: char) {
    c == '-' || c == '.' || '0' <= c <= '9'
  }

  /** `[-.0-9]+`. */
  predicate IsToken(s: string) {
    |s| > 0 && forall k :: 0 <= k < |s| ==> IsNumeral(s[k])
  }

  /** `.?`: empty, or one character other than a newline. */
  predicate IsTag(t: string) {
    |t| == 0 || (|t| == 1 && t[0] != '\n')
  }

  predicate WellFormed(f: Fields) {
    IsTag(f.tag) && IsToken(f.t0) && IsToken(f.t1) && IsToken(f.t2)
  }

  /** The three numeric tokens as they stand in the line. */
  function Joined(t0: string, t1: string, t2: string): string {
    t0 + " " + (t1 + " " + t2)
  }

  /** The one line the pattern matches with these captures. */
  function Render(f: Fields): string {
    f.tag + " " + Joined(f.t0, f.t1, f.t2)
  }

  /** The length of the longest prefix of `s` made of `[-.0-9]`. */
  function TokenLength(s: string): (n: nat)
    ensures n <= |s|
    ensures forall k :: 0 <= k < n ==> IsNumeral(s[k])
    ensures n < |s| ==> !IsNumeral(s[n])
  {
    if |s| > 0 && IsNumeral(s[0]) then 1 + TokenLength(s[1..]) else 0
  }

  /** Matches `([-.0-9]+) ([-.0-9]+) ([-.0-9]+)$`. */
  function SplitTokens(s: string): (r: Option<(string, string, string)>)
    ensures r.Some? ==> IsToken(r.value.0) && IsToken(r.value.1) && IsToken(r.value.2)
    ensures r.Some? ==> s == Joined(r.value.0, r.value.1, r.value.2)
  {
    var n0 := TokenLength(s);
    if n0 == 0 || n0 == |s| || s[n0] != ' ' then None
    else
      var r1 := s[n0 + 1..];
      var n1 := TokenLength(r1);
      if n1 == 0 || n1 == |r1| || r1[n1] != ' ' then None
      else
        var r2 := r1[n1 + 1..];
        if |r2| == 0 || TokenLength(r2) != |r2| then None
        else
          assert r1 == r1[..n1] + " " + r2;
          assert s == s[..n0] + " " + r1;
          Some((s[..n0], r1[..n1], r2))
  }

  /**
   * `re.captures(line)`: the greedy `.?` first tries to take one character, then none.
   * Whatever it returns is well formed and renders back to the line.
   */
  function MatchLine(line: string): (m: Option<Fields>)
    ensures m.Some? ==> WellFormed(m.value) && Render(m.value) == line
  {
    if |line| >= 2 && line[0] != '\n' && line[1] == ' ' && SplitTokens(line[2..]).Some? then
      var ts := SplitTokens(line[2..]).value;
      SpaceAt(line, 1);
      Some(Fields(line[..1], ts.0, ts.1, ts.2))
    else if |line| >= 1 && line[0] == ' ' && SplitTokens(line[1..]).Some? then
      var ts := SplitTokens(line[1..]).value;
      SpaceAt(line, 0);
      Some(Fields("", ts.0, ts.1, ts.2))
    else
      None
  }

  /** A line with a space at k is what stands before it, the space, and what follows it. */
  lemma SpaceAt(line: string, k: nat)
    requires k < |line| && line[k] == ' '
    ensures line == line[..k] + " " + line[k + 1..]
    ensures k == 0 ==> line[..k] == ""
  {
    assert line == line[..k] + line[k..];
  }

  lemma {:induction false} TokenLengthOf(t: string, rest: string)
    requires forall k :: 0 <= k < |t| ==> IsNumeral(t[k])
    requires rest == [] || !IsNumeral(rest[0])
    ensures TokenLength(t + rest) == |t|
  {
    if t != [] {
      assert (t + rest)[1..] == t[1..] + rest;
      TokenLengthOf(t[1..], rest);
    }
  }

  /** A token followed by a space is split off exactly. */
  lemma TokenThenSpace(t: string, rest: string)
    requires IsToken(t)
    ensures TokenLength(t + " " + rest) == |t|
    ensures (t + " " + rest)[|t|] == ' '
    ensures (t + " " + rest)[..|t|] == t && (t + " " + rest)[|t| + 1..] == rest
  {
    assert t + " " + rest == t + (" " + rest);
    TokenLengthOf(t, " " + rest);
  }

  lemma SplitTokensComplete(t0: string, t1: string, t2: string)
    requires IsToken(t0) && IsToken(t1) && IsToken(t2)
    ensures SplitTokens(Joined(t0, t1, t2)) == Some((t0, t1, t2))
  {
    TokenThenSpace(t0, t1 + " " + t2);
    TokenThenSpace(t1, t2);
    TokenLengthOf(t2, []);
    assert t2 + [] == t2;
  }

  /** Every well-formed set of captures is found again in the line it renders to. */
  lemma MatchLineComplete(f: Fields)
    requires WellFormed(f)
    ensures MatchLine(Render(f)) == Some(f)
  {
    var line := Render(f);
    var rest := Joined(f.t0, f.t1, f.t2);
    SplitTokensComplete(f.t0, f.t1, f.t2);
    if |f.tag| == 1 {
      assert line[2..] == rest;
      assert line[..1] == f.tag;
    } else {
      assert line[1..] == rest;
      assert line[1] == f.t0[0];
      assert !IsNumeral(' ');
    }
  }

  /** A line matches with exactly the captures that are well formed and render to it. */
  lemma MatchLineIff(line: string, f: Fields)
    ensures MatchLine(line) == Some(f) <==> WellFormed(f) && Render(f) == line
  {
    if WellFormed(f) && Render(f) == line {
      MatchLineComplete(f);
    }
  }

  // ------------------------------------------------------------------ number parsing

  predicate IsDigit(c: char) {
    '0' <= c <= '9'
  }

  predicate AllDigits(s: string) {
    forall k :: 0 <= k < |s| ==> IsDigit(s[k])
  }

  /** The value of a decimal numeral, most significant digit first. */
  function DigitsValue(s: string): nat
    requires AllDigits(s)
  {
    if s == [] then 0 else 10 * DigitsValue(s[..|s| - 1]) + (s[|s| - 1] as int - '0' as int)
  }

  /** `str::parse::<usize>` on a `[-.0-9]+` token: a nonempty run of digits whose value fits. */
  function ParseUsize(s: string): (r: Option<nat>)
    ensures r.Some? ==> r.value <= USIZE_MAX && |s| > 0 && AllDigits(s)
    ensures r.Some? ==> r.value == DigitsValue(s)
    ensures |s| > 0 && AllDigits(s) && DigitsValue(s) <= USIZE_MAX ==> r.Some?
    ensures (exists k :: 0 <= k < |s| && !IsDigit(s[k])) ==> r.None?
  {
    if |s| > 0 && AllDigits(s) && DigitsValue(s) <= USIZE_MAX then Some(DigitsValue(s)) else None
  }

  /** A leading zero does not change the value of a numeral. */
  lemma {:induction false} LeadingZeroValue(s: string)
    requires AllDigits(s)
    ensures AllDigits("0" + s) && DigitsValue("0" + s) == DigitsValue(s)
  {
    if s != [] {
      LeadingZeroValue(s[..|s| - 1]);
      assert ("0" + s)[..|s|] == "0" + s[..|s| - 1];
    }
  }

  /** `parse::<usize>` accepts leading zeros: `"01"` parses as 1, as `"1"` does. */
  lemma LeadingZeroParse(s: string)
    requires |s| > 0
    ensures ParseUsize("0" + s) == ParseUsize(s)
  {
    if AllDigits(s) {
      LeadingZeroValue(s);
    } else {
      var k :| 0 <= k < |s| && !IsDigit(s[k]);
      assert !IsDigit(("0" + s)[k + 1]);
    }
  }

  /** The decimal numeral of `n`, without leading zeros. */
  function Decimal(n: nat): (s: string)
    ensures |s| > 0 && AllDigits(s)
  {
    if n < 10 then [('0' as int + n) as char]
    else Decimal(n / 10) + [('0' as int + n % 10) as char]
  }

  lemma {:induction false} DecimalValue(n: nat)
    ensures DigitsValue(Decimal(n)) == n
  {
    var s := Decimal(n);
    if n >= 10 {
      DecimalValue(n / 10);
      assert s[..|s| - 1] == Decimal(n / 10);
    }
  }

  /** Parsing the decimal numeral of an index that fits a usize gives the index back. */
  lemma ParseDecimal(n: nat)
    requires n <= USIZE_MAX
    ensures ParseUsize(Decimal(n)) == Some(n)
  {
    DecimalValue(n);
  }

  /** A coordinate token: the float parse is a parameter; its failure panics. */
  function Coordinate(tok: string, parseReal: string -> Option<real>): (r: Result<real, LoadError>)
    ensures r.Success? <==> parseReal(tok).Some?
    ensures r.Success? ==> r.value == parseReal(tok).value
    ensures r.Failure? ==> r.error == BadCoordinate(tok)
  {
    match parseReal(tok)
    case None => Failure(BadCoordinate(tok))
    case Some(v) => Success(v)
  }

  /** `tok.parse::<usize>().unwrap() - 1`: the parse, then the subtraction, may panic. */
  function FaceIndex(tok: string): (r: Result<nat, LoadError>)
    ensures r.Success? <==> ParseUsize(tok).Some? && ParseUsize(tok).value >= 1
    ensures r.Success? ==> r.value + 1 == ParseUsize(tok).value
    ensures r == Failure(IndexUnderflow) <==> ParseUsize(tok) == Some(0)
  {
    match ParseUsize(tok)
    case None => Failure(BadIndex(tok))
    case Some(n) => if n == 0 then Failure(IndexUnderflow) else Success(n - 1)
  }

  // -------------------------------------------------------------------- the line loop

  /** A line that can panic: one the pattern matches, with the tag `v` or `f`. */
  predicate Panics(line: string) {
    MatchLine(line).Some? && MatchLine(line).value.tag in ["v", "f"]
  }

  /** One iteration of the loop over the file's lines, on the model built so far. */
  function ApplyLine(m: Model, line: string, parseReal: string -> Option<real>): (r: Result<Model, LoadError>)
    ensures r.Success? ==> m.verts <= r.value.verts && m.faces <= r.value.faces
    ensures r.Success? ==> |r.value.verts| + |r.value.faces| <= |m.verts| + |m.faces| + 1
    ensures r.Failure? ==> Panics(line)
  {
    match MatchLine(line)
    case None => Success(m)
    case Some(f) => ApplyCaptures(m, f, parseReal)
  }

  /** The `match` on the tag of a matching line: a vertex, a face, or nothing. */
  function ApplyCaptures(m: Model, f: Fields, parseReal: string -> Option<real>): (r: Result<Model, LoadError>)
    ensures r.Success? ==> m.verts <= r.value.verts && m.faces <= r.value.faces
    ensures r.Success? ==> |r.value.verts| + |r.value.faces| <= |m.verts| + |m.faces| + 1
  {
    if f.tag == "v" then
      var x :- Coordinate(f.t0, parseReal);
      var y :- Coordinate(f.t1, parseReal);
      var z :- Coordinate(f.t2, parseReal);
      Success(m.(verts := m.verts + [Vertex(Vec3(x, y, z))]))
    else if f.tag == "f" then
      var i0 :- FaceIndex(f.t0);
      var i1 :- FaceIndex(f.t1);
      var i2 :- FaceIndex(f.t2);
      Success(m.(faces := m.faces + [(i0, i1, i2)]))
    else
      Success(m)
  }

  /** The model that results from the remaining `lines`, starting from `m`, or the first panic. */
  function LoadFrom(m: Model, lines: seq<string>, parseReal: string -> Option<real>): (r: Result<Model, LoadError>)
    ensures r.Failure? ==> exists k :: 0 <= k < |lines| && Panics(lines[k])
    decreases |lines|, 1
  {
    if lines == [] then Success(m) else LoadLine(m, lines, parseReal)
  }

  /** The first of the remaining lines applied to `m`, then the rest loaded from what it gives. */
  function LoadLine(m: Model, lines: seq<string>, parseReal: string -> Option<real>): (r: Result<Model, LoadError>)
    requires lines != []
    ensures r.Failure? ==> exists k :: 0 <= k < |lines| && Panics(lines[k])
    decreases |lines|, 0
  {
    match ApplyLine(m, lines[0], parseReal)
    case Failure(e) => Failure(e)
    case Success(m') => LoadFrom(m', lines[1..], parseReal)
  }

  /** A line the pattern does not match leaves the model as it is. */
  lemma UnmatchedLineIgnored(m: Model, line: string, parseReal: string -> Option<real>)
    requires MatchLine(line).None?
    ensures ApplyLine(m, line, parseReal) == Success(m)
  {
  }

  /** A matching line whose tag is neither `v` nor `f` (the empty tag included) changes nothing. */
  lemma OtherTagIgnored(m: Model, f: Fields, parseReal: string -> Option<real>)
    requires WellFormed(f) && f.tag != "v" && f.tag != "f"
    ensures ApplyLine(m, Render(f), parseReal) == Success(m)
  {
    MatchLineComplete(f);
  }

  /**
   * A `v` line appends exactly one vertex at the end of `verts` and leaves `faces` alone
   * when its three coordinates parse, and panics on the first one that does not.
   */
  lemma VertexLine(m: Model, f: Fields, parseReal: string -> Option<real>)
    requires WellFormed(f) && f.tag == "v"
    ensures var r := ApplyLine(m, Render(f), parseReal);
      && (r.Success? <==> parseReal(f.t0).Some? && parseReal(f.t1).Some? && parseReal(f.t2).Some?)
      && (r.Success? ==> r.value == Model(m.verts + [Vertex(Vec3(parseReal(f.t0).value, parseReal(f.t1).value, parseReal(f.t2).value))], m.faces))
      && (r.Failure? ==> r.error.BadCoordinate?)
  {
    MatchLineComplete(f);
  }

  /**
   * An `f` line appends exactly one face at the end of `faces`, each written index minus 1,
   * and leaves `verts` alone; it panics unless all three indices parse and are at least 1.
   */
  lemma FaceLine(m: Model, f: Fields, parseReal: string -> Option<real>)
    requires WellFormed(f) && f.tag == "f"
    ensures var r := ApplyLine(m, Render(f), parseReal);
      && (r.Success? <==> FaceIndex(f.t0).Success? && FaceIndex(f.t1).Success? && FaceIndex(f.t2).Success?)
      && (r.Success? ==> r.value == Model(m.verts, m.faces + [(FaceIndex(f.t0).value, FaceIndex(f.t1).value, FaceIndex(f.t2).value)]))
      && (FaceIndex(f.t0).Failure? ==> r == Failure(FaceIndex(f.t0).error))
      && (FaceIndex(f.t0).Success? && FaceIndex(f.t1).Failure? ==> r == Failure(FaceIndex(f.t1).error))
      && (FaceIndex(f.t0).Success? && FaceIndex(f.t1).Success? && FaceIndex(f.t2).Failure? ==>
            r == Failure(FaceIndex(f.t2).error))
  {
    MatchLineComplete(f);
  }

  /** The numerals `0` and `1`, and two tokens that are not usize numerals. */
  lemma SmallIndices()
    ensures FaceIndex("0") == Failure(IndexUnderflow)
    ensures FaceIndex("1") == Success(0)
    ensures FaceIndex("1.5") == Failure(BadIndex("1.5"))
    ensures FaceIndex("-2") == Failure(BadIndex("-2"))
  {
    assert "0"[..0] == "" && "1"[..0] == "";
    assert !IsDigit("1.5"[1]);
    assert !IsDigit("-2"[0]);
  }

  /** An `f` line with index 0 panics on the subtraction `0 - 1`. */
  lemma ZeroIndexLine(m: Model, line: string, parseReal: string -> Option<real>)
    requires line == "f 0 1 2"
    ensures ApplyLine(m, line, parseReal) == Failure(IndexUnderflow)
  {
    var f := Fields("f", "0", "1", "2");
    assert Render(f) == line;
    SmallIndices();
    FaceLine(m, f, parseReal);
  }

  /** An `f` line with a fractional index such as `1.5` panics in `parse`. */
  lemma FractionalIndexLine(m: Model, line: string, parseReal: string -> Option<real>)
    requires line == "f 1.5 1 1"
    ensures ApplyLine(m, line, parseReal) == Failure(BadIndex("1.5"))
  {
    var f := Fields("f", "1.5", "1", "1");
    assert Render(f) == line;
    SmallIndices();
    FaceLine(m, f, parseReal);
  }

  /** An `f` line with a negative index such as `-2` panics in `parse`: a usize has no sign. */
  lemma NegativeIndexLine(m: Model, line: string, parseReal: string -> Option<real>)
    requires line == "f 1 -2 1"
    ensures ApplyLine(m, line, parseReal) == Failure(BadIndex("-2"))
  {
    var f := Fields("f", "1", "-2", "1");
    assert Render(f) == line;
    SmallIndices();
    FaceLine(m, f, parseReal);
  }

  /** The vertex a line contributes when it is loaded: one for a parsed `v` line, none otherwise. */
  function VertexOf(line: string, parseReal: string -> Option<real>): seq<Vertex> {
    match MatchLine(line)
    case Some(f) =>
      if f.tag == "v" && parseReal(f.t0).Some? && parseReal(f.t1).Some? && parseReal(f.t2).Some? then
        [Vertex(Vec3(parseReal(f.t0).value, parseReal(f.t1).value, parseReal(f.t2).value))]
      else []
    case None => []
  }

  /** The face a line contributes when it is loaded: one for a parsed `f` line, none otherwise. */
  function FaceOf(line: string): seq<Face> {
    match MatchLine(line)
    case Some(f) =>
      if f.tag == "f" && FaceIndex(f.t0).Success? && FaceIndex(f.t1).Success? && FaceIndex(f.t2).Success? then
        [(FaceIndex(f.t0).value, FaceIndex(f.t1).value, FaceIndex(f.t2).value)]
      else []
    case None => []
  }

  /** The vertices of the `v` lines, in line order. */
  function Vertices(lines: seq<string>, parseReal: string -> Option<real>): seq<Vertex>
    decreases |lines|, 1
  {
    if lines == [] then [] else LineVertices(lines, parseReal)
  }

  /** The vertices of a nonempty run of lines: those of its first line, then the rest. */
  function LineVertices(lines: seq<string>, parseReal: string -> Option<real>): seq<Vertex>
    requires lines != []
    decreases |lines|, 0
  {
    VertexOf(lines[0], parseReal) + Vertices(lines[1..], parseReal)
  }

  /** The faces of the `f` lines, in line order. */
  function Faces(lines: seq<string>): seq<Face>
    decreases |lines|, 1
  {
    if lines == [] then [] else LineFaces(lines)
  }

  /** The faces of a nonempty run of lines: those of its first line, then the rest. */
  function LineFaces(lines: seq<string>): seq<Face>
    requires lines != []
    decreases |lines|, 0
  {
    FaceOf(lines[0]) + Faces(lines[1..])
  }

  lemma ApplyLineRecords(m: Model, line: string, parseReal: string -> Option<real>)
    requires ApplyLine(m, line, parseReal).Success?
    ensures ApplyLine(m, line, parseReal).value.verts == m.verts + VertexOf(line, parseReal)
    ensures ApplyLine(m, line, parseReal).value.faces == m.faces + FaceOf(line)
  {
    match MatchLine(line)
    case None =>
    case Some(f) =>
      MatchLineIff(line, f);
      if f.tag == "v" {
        VertexLine(m, f, parseReal);
      } else if f.tag == "f" {
        FaceLine(m, f, parseReal);
      } else {
        OtherTagIgnored(m, f, parseReal);
      }
  }

  /** A load that does not panic applies its first line and goes on with the rest. */
  lemma LoadStep(m: Model, lines: seq<string>, parseReal: string -> Option<real>) returns (next: Model)
    requires lines != [] && LoadFrom(m, lines, parseReal).Success?
    ensures LoadFrom(m, lines, parseReal) == LoadFrom(next, lines[1..], parseReal)
    ensures next.verts == m.verts + VertexOf(lines[0], parseReal)
    ensures next.faces == m.faces + FaceOf(lines[0])
    ensures Vertices(lines, parseReal) == VertexOf(lines[0], parseReal) + Vertices(lines[1..], parseReal)
    ensures Faces(lines) == FaceOf(lines[0]) + Faces(lines[1..])
  {
    next := ApplyLine(m, lines[0], parseReal).value;
    ApplyLineRecords(m, lines[0], parseReal);
  }

  /** A load that does not panic appends the vertices of the `v` lines, in line order, and no others. */
  lemma {:induction false} LoadVertices(m: Model, lines: seq<string>, parseReal: string -> Option<real>)
    requires LoadFrom(m, lines, parseReal).Success?
    ensures LoadFrom(m, lines, parseReal).value.verts == m.verts + Vertices(lines, parseReal)
    decreases |lines|
  {
    if lines != [] {
      var next := LoadStep(m, lines, parseReal);
      LoadVertices(next, lines[1..], parseReal);
      var vs := VertexOf(lines[0], parseReal);
      assert m.verts + vs + Vertices(lines[1..], parseReal) == m.verts + (vs + Vertices(lines[1..], parseReal));
    }
  }

  /** A load that does not panic appends the faces of the `f` lines, in line order, and no others. */
  lemma {:induction false} LoadFaces(m: Model, lines: seq<string>, parseReal: string -> Option<real>)
    requires LoadFrom(m, lines, parseReal).Success?
    ensures LoadFrom(m, lines, parseReal).value.faces == m.faces + Faces(lines)
    decreases |lines|
  {
    if lines != [] {
      var next := LoadStep(m, lines, parseReal);
      LoadFaces(next, lines[1..], parseReal);
      var fs := FaceOf(lines[0]);
      assert m.faces + fs + Faces(lines[1..]) == m.faces + (fs + Faces(lines[1..]));
    }
  }

  /** Loading `a + b` is loading `a`, then loading `b` from the model `a` gave, unless `a` panicked. */
  lemma {:induction false} LoadConcat(m: Model, a: seq<string>, b: seq<string>, parseReal: string -> Option<real>)
    ensures LoadFrom(m, a + b, parseReal) ==
      match LoadFrom(m, a, parseReal)
      case Failure(e) => Failure(e)
      case Success(m') => LoadFrom(m', b, parseReal)
    decreases |a|
  {
    if a == [] {
      assert a + b == b;
    } else {
      var all := a + b;
      assert all[0] == a[0] && all[1..] == a[1..] + b;
      assert LoadFrom(m, all, parseReal) == LoadLine(m, all, parseReal);
      assert LoadFrom(m, a, parseReal) == LoadLine(m, a, parseReal);
      match ApplyLine(m, a[0], parseReal)
      case Failure(e) =>
      case Success(m') => LoadConcat(m', a[1..], b, parseReal);
    }
  }

  /** Loading a single line is applying it. */
  lemma LoadOne(m: Model, line: string, parseReal: string -> Option<real>)
    ensures LoadFrom(m, [line], parseReal) == ApplyLine(m, line, parseReal)
  {
    assert LoadFrom(m, [line], parseReal) == LoadLine(m, [line], parseReal);
    assert [line][0] == line && [line][1..] == [];
    match ApplyLine(m, line, parseReal)
    case Failure(e) =>
    case Success(m') => assert LoadFrom(m', [], parseReal) == Success(m');
  }

  /** The loop of `Model::load_obj`, over the file's lines. */
  method LoadObj(lines: seq<string>, parseReal: string -> Option<real>) returns (r: Result<Model, LoadError>)
    ensures r == LoadFrom(NewModel(), lines, parseReal)
  {
    var model := NewModel();
    for k := 0 to |lines|
      invariant LoadFrom(model, lines[k..], parseReal) == LoadFrom(NewModel(), lines, parseReal)
    {
      assert lines[k..][0] == lines[k] && lines[k..][1..] == lines[k + 1..];
      var captures := MatchLine(lines[k]);
      if captures.None? {
        continue;
      }
      var f := captures.value;
      if f.tag == "v" {
        var x :- Coordinate(f.t0, parseReal);
        var y :- Coordinate(f.t1, parseReal);
        var z :- Coordinate(f.t2, parseReal);
        model := model.(verts := model.verts + [Vertex(Vec3(x, y, z))]);
      }
      if f.tag == "f" {
        var i0 :- FaceIndex(f.t0);
        var i1 :- FaceIndex(f.t1);
        var i2 :- FaceIndex(f.t2);
        model := model.(faces := model.faces + [(i0, i1, i2)]);
      }
    }
    assert lines[|lines|..] == [];
    r := Success(model);
  }
}
