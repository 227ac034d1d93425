/**
 * The column namespace: internal column identifiers `table/@/column`, the splitting
 * of quoted, dotted user references, and the resolution of a user reference against
 * a list of internal identifiers.
 */
module Columns {
  import opened Wrappers
  import opened Ast
  import opened Text

  /** The reserved separator between the table and the column part of an identifier. */
  const Sep: string := "/@/"

  /** `obj.split(sep, 1)`: the qualifier before the first separator and the rest. */
  function SplitTableColumn(obj: string, sep: string): (r: (Option<string>, string))
    requires |sep| > 0
  {
    match Find(obj, sep)
    case None => (None, obj)
    case Some(i) => (Some(obj[..i]), obj[i + |sep|..])
  }

  function ColumnFromParts(table: Option<string>, column: string): string {
    match table
    case None => column
    case Some(t) => t + Sep + column
  }

  function ColumnGetTable(column: string): Option<string> {
    SplitTableColumn(column, Sep).0
  }

  function ColumnGetColumn(column: string): string {
    SplitTableColumn(column, Sep).1
  }

  function ColumnSetTable(column: string, table: Option<string>): string {
    ColumnFromParts(table, ColumnGetColumn(column))
  }

  /**
   * A user reference, possibly `table.column`, names the internal identifier: a bare
   * reference compares the column parts only, a qualified one both parts.
   */
  function ColumnMatch(col: string, internalCol: string): bool {
    var (colTable, colName) := SplitTableColumn(col, ".");
    var (internalTable, internalName) := SplitTableColumn(internalCol, Sep);
    if colTable.None? then colName == internalName
    else internalTable == colTable && internalName == colName
  }

  /**
   * A qualifier whose identifier splits back at the separator that joined it: the
   * separator must not occur in it, nor straddle its end (a qualifier ending in `/@`).
   */
  ghost predicate SafeQualifier(t: string) {
    !Contains(t + "/@", Sep)
  }

  lemma SafeQualifierHasNoSeparator(t: string)
    requires SafeQualifier(t)
    ensures !Contains(t, Sep)
  {
    forall j | OccursAt(t, Sep, j) ensures false {
      assert (t + "/@")[j..j + 3] == t[j..j + 3];
      assert OccursAt(t + "/@", Sep, j);
    }
  }

  /** Building an identifier and taking it apart again gives back both parts. */
  lemma ColumnPartsRoundTrip(table: Option<string>, column: string)
    requires table.Some? ==> SafeQualifier(table.value)
    requires table.None? ==> !Contains(column, Sep)
    ensures ColumnGetTable(ColumnFromParts(table, column)) == table
    ensures ColumnGetColumn(ColumnFromParts(table, column)) == column
  {
    if table.Some? {
      var t := table.value;
      var s := t + Sep + column;
      assert OccursAt(s, Sep, |t|) by { assert s[|t|..|t| + 3] == Sep; }
      var r := Find(s, Sep);
      assert r.Some?;
      if r.value < |t| {
        assert (t + "/@")[r.value..r.value + 3] == s[r.value..r.value + 3];
        assert OccursAt(t + "/@", Sep, r.value);
        assert false;
      }
      assert r == Some(|t|);
      assert s[..|t|] == t && s[|t| + 3..] == column;
    }
  }

  /** A qualifier ending in `/@` does not survive the round trip. */
  lemma UnsafeQualifierLosesRoundTrip()
    ensures ColumnFromParts(Some("a/@"), "c") == "a/@/@/c"
    ensures ColumnGetTable("a/@/@/c") == Some("a")
    ensures ColumnGetColumn("a/@/@/c") == "@/c"
  {
    var s := "a/@/@/c";
    assert OccursAt(s, Sep, 1) by { assert s[1..4] == Sep; }
    assert !OccursAt(s, Sep, 0) by { assert s[0] != '/'; }
    assert Find(s, Sep) == Some(1);
    assert s[..1] == "a" && s[4..] == "@/c";
  }

  /** Every identifier is rebuilt from its own table and column parts. */
  lemma ColumnPartsRebuild(x: string)
    ensures ColumnFromParts(ColumnGetTable(x), ColumnGetColumn(x)) == x
  {
    match Find(x, Sep)
    case None =>
    case Some(i) =>
      assert x[i..i + 3] == Sep;
      assert x == x[..i] + x[i..i + 3] + x[i + 3..];
  }

  /**
   * Setting the table replaces only the qualifier and keeps the column part, and
   * setting the same table twice is the same as setting it once.
   */
  lemma ColumnSetTableReplacesQualifier(column: string, t: string)
    requires SafeQualifier(t)
    ensures ColumnGetTable(ColumnSetTable(column, Some(t))) == Some(t)
    ensures ColumnGetColumn(ColumnSetTable(column, Some(t))) == ColumnGetColumn(column)
    ensures ColumnSetTable(ColumnSetTable(column, Some(t)), Some(t)) == ColumnSetTable(column, Some(t))
  {
    ColumnPartsRoundTrip(Some(t), ColumnGetColumn(column));
  }

  /** A reference without a dot matches exactly the identifiers with that column part. */
  lemma ColumnMatchUnqualified(col: string, internalCol: string)
    requires '.' !in col
    ensures ColumnMatch(col, internalCol) <==> col == ColumnGetColumn(internalCol)
  {
    ContainsChar(col, '.');
  }

  /** A reference `t.c` matches exactly the identifiers with table part `t` and column part `c`. */
  lemma ColumnMatchQualified(t: string, c: string, internalCol: string)
    requires '.' !in t
    ensures ColumnMatch(t + "." + c, internalCol)
        <==> ColumnGetTable(internalCol) == Some(t) && ColumnGetColumn(internalCol) == c
  {
    var s := t + "." + c;
    assert OccursAt(s, ".", |t|) by { assert s[|t|..|t| + 1] == "."; }
    forall j | 0 <= j < |t| ensures !OccursAt(s, ".", j) {
      assert s[j..j + 1] == [t[j]];
    }
    assert Find(s, ".") == Some(|t|);
    assert s[..|t|] == t && s[|t| + 1..] == c;
  }

  // ---------------------------------------------------------------------------
  // Quoted, dotted names

  /** The scanner's state: finished parts, the part being built, and two flags. */
  datatype QState = QState(parts: seq<string>, current: string, inString: bool, afterQuote: bool)

  const QInit := QState([], "", false, false)

  /** One character of the scanner: escape, quoted text, quote toggle, dot or plain text. */
  function QStep(st: QState, c: char): QState {
    if st.afterQuote then st.(current := st.current + [c], afterQuote := false)
    else if st.inString && c != '"' then st.(current := st.current + [c])
    else if c == '"' then st.(inString := !st.inString)
    else if c == '\\' then st.(afterQuote := true)
    else if c == '.' then st.(parts := st.parts + [st.current], current := "")
    else st.(current := st.current + [c])
  }

  /** The scanner run over `s` from state `st`. */
  function QRun(st: QState, s: string): QState
    decreases |s|
  {
    if |s| == 0 then st else QStep(QRun(st, s[..|s| - 1]), s[|s| - 1])
  }

  /** The parts of a quoted, dotted name. */
  function SplitQuoted(name: string): (r: seq<string>)
    ensures |r| >= 1
  {
    var st := QRun(QInit, name);
    st.parts + [st.current]
  }

  /**
   * The dots of `name` that separate parts: those the scanner meets outside quotes and
   * not right after a backslash.
   */
  function Separators(name: string): nat
    decreases |name|
  {
    if |name| == 0 then 0
    else
      var init := name[..|name| - 1];
      Separators(init) + if name[|name| - 1] == '.' && Outside(QRun(QInit, init)) then 1 else 0
  }

  /** A name splits into one part more than it has separating dots. */
  lemma {:induction false} SplitQuotedCount(name: string)
    ensures |SplitQuoted(name)| == Separators(name) + 1
    ensures |QRun(QInit, name).parts| == Separators(name)
    decreases |name|
  {
    if |name| > 0 {
      SplitQuotedCount(name[..|name| - 1]);
    }
  }

  method SplitQuotedName(name: string) returns (parts: seq<string>)
    ensures parts == SplitQuoted(name)
  {
    parts := [];
    var current := "";
    var inString := false;
    var afterQuote := false;
    for i := 0 to |name|
      invariant QRun(QInit, name[..i]) == QState(parts, current, inString, afterQuote)
    {
      var c := name[i];
      assert name[..i + 1][..i] == name[..i];
      if afterQuote {
        current := current + [c];
        afterQuote := false;
      } else if inString && c != '"' {
        current := current + [c];
      } else if c == '"' {
        inString := !inString;
      } else if c == '\\' {
        afterQuote := true;
      } else if c == '.' {
        parts := parts + [current];
        current := "";
      } else {
        current := current + [c];
      }
    }
    assert name[..|name|] == name;
    parts := parts + [current];
  }

  lemma {:induction false} QRunAppend(st: QState, a: string, b: string)
    ensures QRun(st, a + b) == QRun(QRun(st, a), b)
    decreases |b|
  {
    if |b| > 0 {
      var ab := a + b;
      assert ab[..|ab| - 1] == a + b[..|b| - 1];
      QRunAppend(st, a, b[..|b| - 1]);
    } else {
      assert a + b == a;
    }
  }

  predicate Outside(st: QState) {
    !st.inString && !st.afterQuote
  }

  function EscapeChar(c: char): string {
    if c == '.' || c == '"' || c == '\\' then ['\\', c] else [c]
  }

  /** A name part with every dot, quote and backslash preceded by a backslash. */
  function Escape(p: string): string
    decreases |p|
  {
    if |p| == 0 then "" else Escape(p[..|p| - 1]) + EscapeChar(p[|p| - 1])
  }

  /** A name part between double quotes. */
  function Quote(p: string): string {
    "\"" + p + "\""
  }

  lemma {:induction false} QRunEscape(st: QState, p: string)
    requires Outside(st)
    ensures QRun(st, Escape(p)) == st.(current := st.current + p)
    decreases |p|
  {
    if |p| > 0 {
      var c := p[|p| - 1];
      QRunEscape(st, p[..|p| - 1]);
      QRunAppend(st, Escape(p[..|p| - 1]), EscapeChar(c));
      var mid := st.(current := st.current + p[..|p| - 1]);
      if c == '.' || c == '"' || c == '\\' {
        QRunAppend(mid, ['\\'], [c]);
        assert ['\\', c] == ['\\'] + [c];
        assert QRun(mid, ['\\']) == mid.(afterQuote := true);
      }
      assert p[..|p| - 1] + [c] == p;
    }
  }

  lemma {:induction false} QRunInString(st: QState, p: string)
    requires st.inString && !st.afterQuote && '"' !in p
    ensures QRun(st, p) == st.(current := st.current + p)
    decreases |p|
  {
    if |p| > 0 {
      QRunInString(st, p[..|p| - 1]);
      assert p[..|p| - 1] + [p[|p| - 1]] == p;
    }
  }

  lemma QRunQuote(st: QState, p: string)
    requires Outside(st) && '"' !in p
    ensures QRun(st, Quote(p)) == st.(current := st.current + p)
  {
    var open := QRun(st, "\"");
    assert open == st.(inString := true);
    QRunInString(open, p);
    QRunAppend(st, "\"", p);
    QRunAppend(st, "\"" + p, "\"");
  }

  /** Scanning `seg` outside quotes adds exactly `part` to the current part. */
  ghost predicate Appends(seg: string, part: string) {
    forall st: QState {:trigger QRun(st, seg)} :: Outside(st) ==> QRun(st, seg) == st.(current := st.current + part)
  }

  /**
   * Joining encoded parts with dots and scanning the result gives the parts back,
   * provided each encoding adds exactly its part to the current part.
   */
  lemma {:induction false} QRunJoin(st: QState, parts: seq<string>, segs: seq<string>)
    requires Outside(st) && st.current == ""
    requires |parts| == |segs| >= 1
    requires forall i :: 0 <= i < |segs| ==> Appends(segs[i], parts[i])
    ensures QRun(st, Join(segs, ".")) == QState(st.parts + parts[..|parts| - 1], parts[|parts| - 1], false, false)
    decreases |segs|
  {
    var first := QRun(st, segs[0]);
    assert Appends(segs[0], parts[0]);
    assert first == st.(current := parts[0]);
    if |segs| > 1 {
      var dotted := QRun(first, ".");
      assert dotted == QState(st.parts + [parts[0]], "", false, false);
      var rest := Join(segs[1..], ".");
      assert QRun(st, segs[0] + ".") == dotted by {
        QRunAppend(st, segs[0], ".");
      }
      assert QRun(st, Join(segs, ".")) == QRun(dotted, rest) by {
        assert Join(segs, ".") == segs[0] + "." + rest;
        QRunAppend(st, segs[0] + ".", rest);
      }
      forall i | 0 <= i < |segs| - 1 ensures Appends(segs[1..][i], parts[1..][i]) {
        assert segs[1..][i] == segs[i + 1] && parts[1..][i] == parts[i + 1];
      }
      QRunJoin(dotted, parts[1..], segs[1..]);
      assert st.parts + [parts[0]] + parts[1..][..|parts| - 2] == st.parts + parts[..|parts| - 1];
    } else {
      assert Join(segs, ".") == segs[0];
    }
  }

  lemma SplitQuotedOfRun(name: string, parts: seq<string>)
    requires |parts| >= 1
    requires QRun(QInit, name) == QState(QInit.parts + parts[..|parts| - 1], parts[|parts| - 1], false, false)
    ensures SplitQuoted(name) == parts
  {
    assert QInit.parts + parts[..|parts| - 1] + [parts[|parts| - 1]] == parts;
  }

  function MapSeq(parts: seq<string>, f: string -> string): (r: seq<string>)
    ensures |r| == |parts|
  {
    seq(|parts|, i requires 0 <= i < |parts| => f(parts[i]))
  }

  /** Escaping every part and joining with dots is undone by the scanner. */
  lemma SplitQuotedEscaped(parts: seq<string>)
    requires |parts| >= 1
    ensures SplitQuoted(Join(MapSeq(parts, Escape), ".")) == parts
  {
    var segs := MapSeq(parts, Escape);
    forall i | 0 <= i < |segs| ensures Appends(segs[i], parts[i]) {
      forall st: QState | Outside(st) ensures QRun(st, segs[i]) == st.(current := st.current + parts[i]) {
        QRunEscape(st, parts[i]);
      }
    }
    QRunJoin(QInit, parts, segs);
    SplitQuotedOfRun(Join(segs, "."), parts);
  }

  /** Quoting every part and joining with dots is undone by the scanner. */
  lemma SplitQuotedQuoted(parts: seq<string>)
    requires |parts| >= 1
    requires forall i :: 0 <= i < |parts| ==> '"' !in parts[i]
    ensures SplitQuoted(Join(MapSeq(parts, Quote), ".")) == parts
  {
    var segs := MapSeq(parts, Quote);
    forall i | 0 <= i < |segs| ensures Appends(segs[i], parts[i]) {
      forall st: QState | Outside(st) ensures QRun(st, segs[i]) == st.(current := st.current + parts[i]) {
        QRunQuote(st, parts[i]);
      }
    }
    QRunJoin(QInit, parts, segs);
    SplitQuotedOfRun(Join(segs, "."), parts);
  }

  lemma {:induction false} EscapePlain(p: string)
    requires '.' !in p && '"' !in p && '\\' !in p
    ensures Escape(p) == p
    decreases |p|
  {
    if |p| > 0 {
      EscapePlain(p[..|p| - 1]);
      assert p[..|p| - 1] + [p[|p| - 1]] == p;
    }
  }

  /** On a name without quotes or backslashes the scanner is `name.split('.')`. */
  lemma SplitQuotedPlain(name: string)
    requires '"' !in name && '\\' !in name
    ensures SplitQuoted(name) == PySplit(name, ".")
  {
    var parts := PySplit(name, ".");
    JoinPySplit(name, ".");
    PySplitPartsClean(name, ".");
    forall i | 0 <= i < |parts| ensures Appends(parts[i], parts[i]) {
      ContainsChar(parts[i], '.');
      if '"' in parts[i] { JoinKeepsChars(parts, ".", i, '"'); }
      if '\\' in parts[i] { JoinKeepsChars(parts, ".", i, '\\'); }
      EscapePlain(parts[i]);
      forall st: QState | Outside(st) ensures QRun(st, parts[i]) == st.(current := st.current + parts[i]) {
        QRunEscape(st, parts[i]);
      }
    }
    QRunJoin(QInit, parts, parts);
    SplitQuotedOfRun(name, parts);
  }

  // ---------------------------------------------------------------------------
  // Resolving a reference

  predicate HasColumn(columns: seq<string>, name: string, i: int)
    requires 0 <= i < |columns|
  {
    ColumnGetColumn(columns[i]) == name
  }

  /** The identifiers whose column part is `name`, in list order. */
  function Candidates(columns: seq<string>, name: string): seq<string>
  {
    if |columns| == 0 then []
    else (if ColumnGetColumn(columns[0]) == name then [columns[0]] else []) + Candidates(columns[1..], name)
  }

  lemma {:induction false} CandidatesShift(columns: seq<string>, name: string)
    requires |columns| > 0
    ensures Candidates(columns, name) ==
              (if HasColumn(columns, name, 0) then [columns[0]] else []) + Candidates(columns[1..], name)
    ensures forall i :: 0 <= i < |columns| - 1 ==> HasColumn(columns[1..], name, i) == HasColumn(columns, name, i + 1)
  {
  }

  /** No candidate exactly when no identifier has that column part. */
  lemma {:induction false} CandidatesNone(columns: seq<string>, name: string)
    ensures |Candidates(columns, name)| == 0 <==> forall i :: 0 <= i < |columns| ==> !HasColumn(columns, name, i)
    decreases |columns|
  {
    if |columns| > 0 {
      CandidatesShift(columns, name);
      CandidatesNone(columns[1..], name);
      if forall i :: 0 <= i < |columns| - 1 ==> !HasColumn(columns[1..], name, i) {
        forall i | 0 < i < |columns| ensures !HasColumn(columns, name, i) {
          assert !HasColumn(columns[1..], name, i - 1);
        }
      }
    }
  }

  /** Two or more candidates exactly when two identifiers have that column part. */
  lemma {:induction false} CandidatesMany(columns: seq<string>, name: string)
    ensures |Candidates(columns, name)| >= 2 <==>
              exists i, j :: 0 <= i < j < |columns| && HasColumn(columns, name, i) && HasColumn(columns, name, j)
    decreases |columns|
  {
    if |columns| > 0 {
      var rest := columns[1..];
      CandidatesShift(columns, name);
      CandidatesMany(rest, name);
      CandidatesNone(rest, name);
      if |Candidates(columns, name)| >= 2 {
        if HasColumn(columns, name, 0) {
          var k :| 0 <= k < |rest| && HasColumn(rest, name, k);
          assert HasColumn(columns, name, 0) && HasColumn(columns, name, k + 1);
        } else {
          var i, j :| 0 <= i < j < |rest| && HasColumn(rest, name, i) && HasColumn(rest, name, j);
          assert HasColumn(columns, name, i + 1) && HasColumn(columns, name, j + 1);
        }
      }
      if exists i, j :: 0 <= i < j < |columns| && HasColumn(columns, name, i) && HasColumn(columns, name, j) {
        var i, j :| 0 <= i < j < |columns| && HasColumn(columns, name, i) && HasColumn(columns, name, j);
        assert HasColumn(rest, name, j - 1);
        if i > 0 {
          assert HasColumn(rest, name, i - 1);
        }
      }
    }
  }

  /** A single candidate is the one identifier that has that column part. */
  lemma {:induction false} CandidatesOne(columns: seq<string>, name: string)
    requires |Candidates(columns, name)| == 1
    ensures exists i :: 0 <= i < |columns| && columns[i] == Candidates(columns, name)[0] && HasColumn(columns, name, i) &&
              forall j :: 0 <= j < |columns| && j != i ==> !HasColumn(columns, name, j)
    decreases |columns|
  {
    var rest := columns[1..];
    CandidatesShift(columns, name);
    if HasColumn(columns, name, 0) {
      CandidatesNone(rest, name);
      forall j | 0 < j < |columns| ensures !HasColumn(columns, name, j) {
        assert !HasColumn(rest, name, j - 1);
      }
      assert columns[0] == Candidates(columns, name)[0];
    } else {
      CandidatesOne(rest, name);
      var i :| 0 <= i < |rest| && rest[i] == Candidates(rest, name)[0] && HasColumn(rest, name, i) &&
               forall j :: 0 <= j < |rest| && j != i ==> !HasColumn(rest, name, j);
      assert columns[i + 1] == Candidates(columns, name)[0] && HasColumn(columns, name, i + 1);
      forall j | 0 <= j < |columns| && j != i + 1 ensures !HasColumn(columns, name, j) {
        if j > 0 { assert !HasColumn(rest, name, j - 1); }
      }
    }
  }

  /**
   * `normalize_col_ref`: a reference of two or more dotted parts becomes the identifier
   * of its last two parts; a single part resolves against `columns` by column part.
   */
  function NormalizeColRef(ref: string, columns: seq<string>, optional: bool): (r: Res<Option<string>>)
    ensures r.Ok? && r.value.None? ==> optional
  {
    var parts := SplitQuoted(ref);
    if |parts| >= 2 then
      Ok(Some(ColumnFromParts(Some(parts[|parts| - 2]), parts[|parts| - 1])))
    else
      var candidates := Candidates(columns, parts[0]);
      if |candidates| == 0 then
        if optional then Ok(None) else Err(ColumnNotFound)
      else if |candidates| > 1 then Err(AmbiguousColumn)
      else Ok(Some(candidates[0]))
  }

  /**
   * A dotted reference resolves, whatever the known columns, to the identifier built
   * from its last two parts; when that qualifier is safe, the identifier splits back
   * into exactly those two parts.
   */
  lemma NormalizeColRefQualified(ref: string, columns: seq<string>, optional: bool)
    requires |SplitQuoted(ref)| >= 2
    ensures var parts := SplitQuoted(ref);
            NormalizeColRef(ref, columns, optional) == Ok(Some(ColumnFromParts(Some(parts[|parts| - 2]), parts[|parts| - 1])))
    ensures var parts := SplitQuoted(ref);
            var r := NormalizeColRef(ref, columns, optional);
            SafeQualifier(parts[|parts| - 2]) ==>
              && ColumnGetTable(r.value.value) == Some(parts[|parts| - 2])
              && ColumnGetColumn(r.value.value) == parts[|parts| - 1]
    ensures forall other: seq<string>, opt: bool :: NormalizeColRef(ref, other, opt) == NormalizeColRef(ref, columns, optional)
  {
    var parts := SplitQuoted(ref);
    var id := ColumnFromParts(Some(parts[|parts| - 2]), parts[|parts| - 1]);
    assert NormalizeColRef(ref, columns, optional) == Ok(Some(id));
    forall other: seq<string>, opt: bool
      ensures NormalizeColRef(ref, other, opt) == Ok(Some(id))
    {
    }
    if SafeQualifier(parts[|parts| - 2]) {
      ColumnPartsRoundTrip(Some(parts[|parts| - 2]), parts[|parts| - 1]);
    }
  }

  /**
   * A single-part reference resolves to the one identifier with that column part; none
   * is a not-found error (or no result when optional), several are ambiguous.
   */
  lemma NormalizeColRefUnqualified(ref: string, columns: seq<string>, optional: bool)
    requires |SplitQuoted(ref)| == 1
    ensures var name := SplitQuoted(ref)[0];
            var r := NormalizeColRef(ref, columns, optional);
            && (r.Ok? && r.value.Some? ==>
                 exists i :: 0 <= i < |columns| && columns[i] == r.value.value && HasColumn(columns, name, i) &&
                   forall j :: 0 <= j < |columns| && j != i ==> !HasColumn(columns, name, j))
            && (r == Err(AmbiguousColumn) <==>
                 exists i, j :: 0 <= i < j < |columns| && HasColumn(columns, name, i) && HasColumn(columns, name, j))
            && (r == Err(ColumnNotFound) <==> !optional && forall i :: 0 <= i < |columns| ==> !HasColumn(columns, name, i))
            && (r == Ok(None) <==> optional && forall i :: 0 <= i < |columns| ==> !HasColumn(columns, name, i))
  {
    var name := SplitQuoted(ref)[0];
    CandidatesNone(columns, name);
    CandidatesMany(columns, name);
    if |Candidates(columns, name)| == 1 {
      CandidatesOne(columns, name);
    }
  }

  /** `eval_string_literal`: the text between the quotes of a quoted literal. */
  function EvalStringLiteral(value: string): Res<string> {
    if |value| == 0 || value[0] != '\'' then Err(UnquotedString)
    else Ok(if |value| >= 2 then value[1..|value| - 1] else "")
  }

  /** Quoting a text and evaluating the literal gives the text back; anything unquoted fails. */
  lemma EvalStringLiteralQuoted(s: string, value: string)
    ensures EvalStringLiteral("'" + s + "'") == Ok(s)
    ensures EvalStringLiteral(value).Err? <==> !(|value| > 0 && value[0] == '\'')
  {
    var q := "'" + s + "'";
    assert q[1..|q| - 1] == s;
  }
}
