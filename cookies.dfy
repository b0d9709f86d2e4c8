/**
 * The popup's cookie helpers: the jar the page keeps, the `document.cookie`
 * string it renders to, the `getCookie` parser over that string (split on
 * "; ", first row starting with `name=`, the text after its first `=` up to
 * any second one), and `setCookie`'s effect on the jar.
 */
module Cookies {
  import opened Wrappers
  import opened Text

  const RowSeparator: string := "; "
  const FieldSeparator: string := "="

  /** One cookie: its name and its value as stored, i.e. already percent-encoded. */
  datatype CookieEntry = CookieEntry(name: string, value: string)

  /** A cookie name or encoded value never holds `;` or `=` (`encodeURIComponent` escapes both). */
  predicate Token(s: string) {
    Excludes(s, ';') && Excludes(s, '=')
  }

  predicate WellFormed(jar: seq<CookieEntry>) {
    forall i :: 0 <= i < |jar| ==> jar[i].name != "" && Token(jar[i].name) && Token(jar[i].value)
  }

  function Row(c: CookieEntry): (row: string) {
    c.name + FieldSeparator + c.value
  }

  /** `document.cookie`: the rows of the jar joined by "; ". */
  function DocumentCookie(jar: seq<CookieEntry>): (cookie: string) {
    if jar == [] then ""
    else if |jar| == 1 then Row(jar[0])
    else Row(jar[0]) + RowSeparator + DocumentCookie(jar[1..])
  }

  function Rows(jar: seq<CookieEntry>): (rows: seq<string>)
    ensures |rows| == |jar|
    ensures forall i :: 0 <= i < |jar| ==> rows[i] == Row(jar[i])
  {
    if jar == [] then [] else [Row(jar[0])] + Rows(jar[1..])
  }

  /** The value of the first cookie called `name`. */
  function Lookup(jar: seq<CookieEntry>, name: string): (r: Option<string>)
    ensures r.None? <==> forall i :: 0 <= i < |jar| ==> jar[i].name != name
    ensures r.Some? ==> exists i :: 0 <= i < |jar| && jar[i] == CookieEntry(name, r.value)
  {
    if jar == [] then None
    else if jar[0].name == name then Some(jar[0].value)
    else
      Lookup(jar[1..], name)
  }

  /** `rows.find(row => row.startsWith(prefix))`, as the index of the row found. */
  function FindRow(rows: seq<string>, prefix: string): (r: Option<nat>)
    ensures r.Some? ==> r.value < |rows| && StartsWith(rows[r.value], prefix)
    ensures r.Some? ==> forall i :: 0 <= i < r.value ==> !StartsWith(rows[i], prefix)
    ensures r.None? ==> forall i :: 0 <= i < |rows| ==> !StartsWith(rows[i], prefix)
  {
    if rows == [] then None
    else if StartsWith(rows[0], prefix) then Some(0)
    else
      match FindRow(rows[1..], prefix)
      case None => None
      case Some(i) => Some(i + 1)
  }

  /** Every piece of a split on a one-character separator is free of that character. */
  lemma {:induction false} SplitPiecesExclude(s: string, c: char)
    ensures forall p :: p in Split(s, [c]) ==> Excludes(p, c)
    decreases |s|
  {
    var sep := [c];
    if |s| < 1 {
    } else if s[..1] == sep {
      SplitPiecesExclude(s[1..], c);
    } else {
      var rest := Split(s[1..], sep);
      SplitPiecesExclude(s[1..], c);
      assert s[0] != c by {
        assert s[..1][0] == s[0];
      }
      assert Excludes([s[0]] + rest[0], c) by {
        assert rest[0] in rest;
      }
      forall p | p in rest[1..]
        ensures Excludes(p, c)
      {
        assert p in rest;
      }
    }
  }

  /**
   * `getCookie(name)` up to the final `decodeURIComponent`: nothing when no row
   * of `document.cookie` starts with `name=`; otherwise the second `=`-separated
   * field of the first such row, which never holds `=`.
   */
  function GetCookieRaw(cookie: string, name: string): (r: Option<string>)
    ensures r.None? <==> forall row :: row in Split(cookie, RowSeparator) ==> !StartsWith(row, name + FieldSeparator)
    ensures r.Some? ==> Excludes(r.value, '=')
  {
    var rows := Split(cookie, RowSeparator);
    match FindRow(rows, name + FieldSeparator)
    case None => None
    case Some(i) =>
      var row := rows[i];
      assert row[|name|..|name| + 1] == (name + FieldSeparator)[|name|..|name| + 1];
      SplitAtLeastTwo(row, FieldSeparator, |name|);
      SplitPiecesExclude(row, '=');
      assert Split(row, FieldSeparator)[1] in Split(row, FieldSeparator);
      Some(Split(row, FieldSeparator)[1])
  }

  lemma ExcludesJoin(a: string, b: string, c: string, ch: char)
    requires Excludes(a, ch) && Excludes(b, ch) && Excludes(c, ch)
    ensures Excludes(a + b + c, ch)
  {
    forall k | 0 <= k < |a + b + c|
      ensures (a + b + c)[k] != ch
    {
      if k < |a| {
        assert (a + b + c)[k] == a[k];
      } else if k < |a| + |b| {
        assert (a + b + c)[k] == b[k - |a|];
      } else {
        assert (a + b + c)[k] == c[k - |a| - |b|];
      }
    }
  }

  /** A row of a well-formed cookie holds no `;`. */
  lemma RowExcludesSemicolon(c: CookieEntry)
    requires Token(c.name) && Token(c.value)
    ensures Excludes(Row(c), ';')
  {
    ExcludesJoin(c.name, FieldSeparator, c.value, ';');
  }

  /** Splitting the rendered `document.cookie` on "; " gives back the rows of a non-empty jar. */
  lemma {:induction false} SplitRendered(jar: seq<CookieEntry>)
    requires WellFormed(jar) && jar != []
    ensures Split(DocumentCookie(jar), RowSeparator) == Rows(jar)
    decreases |jar|
  {
    RowExcludesSemicolon(jar[0]);
    if |jar| == 1 {
      SplitWhole(Row(jar[0]), RowSeparator);
    } else {
      SplitAtFirst(Row(jar[0]), RowSeparator, DocumentCookie(jar[1..]));
      SplitRendered(jar[1..]);
    }
  }

  /** A row starts with `name=` exactly when the cookie is called `name`. */
  lemma RowStartsWith(c: CookieEntry, name: string)
    requires c.name != "" && Token(c.name) && Token(name)
    ensures StartsWith(Row(c), name + FieldSeparator) <==> c.name == name
  {
    var prefix := name + FieldSeparator;
    if StartsWith(Row(c), prefix) {
      // at the shorter length one side has `=` and the other a name character, unless the lengths agree
      var k := if |c.name| < |name| then |c.name| else |name|;
      assert Row(c)[k] == prefix[k];
      assert c.name[..k] == Row(c)[..k] == prefix[..k] == name[..k];
    }
  }

  /** A row splits on `=` into the cookie's name and value. */
  lemma FieldOfRow(c: CookieEntry)
    requires Token(c.name) && Token(c.value)
    ensures Split(Row(c), FieldSeparator) == [c.name, c.value]
  {
    SplitAtFirst(c.name, FieldSeparator, c.value);
    SplitWhole(c.value, FieldSeparator);
  }

  lemma {:induction false} FindRowOfRows(jar: seq<CookieEntry>, name: string)
    requires WellFormed(jar) && Token(name)
    ensures match FindRow(Rows(jar), name + FieldSeparator)
      case None => Lookup(jar, name).None?
      case Some(i) => Lookup(jar, name) == Some(jar[i].value)
    decreases |jar|
  {
    if jar != [] {
      RowStartsWith(jar[0], name);
      assert Rows(jar)[1..] == Rows(jar[1..]);
      if jar[0].name != name {
        FindRowOfRows(jar[1..], name);
      }
    }
  }

  /** `getCookie` over the rendered jar finds the value of the cookie of that name. */
  lemma GetCookieOfRendered(jar: seq<CookieEntry>, name: string)
    requires WellFormed(jar) && Token(name)
    ensures GetCookieRaw(DocumentCookie(jar), name) == Lookup(jar, name)
  {
    if jar == [] {
      assert Split("", RowSeparator) == [""];
      assert !StartsWith("", name + FieldSeparator);
    } else {
      SplitRendered(jar);
      FindRowOfRows(jar, name);
      match FindRow(Rows(jar), name + FieldSeparator)
      case None =>
      case Some(i) =>
        FieldOfRow(jar[i]);
    }
  }

  /** `setCookie(name, value)` on the jar: an existing cookie of that name is overwritten in place, otherwise one is added. */
  function SetCookieIn(jar: seq<CookieEntry>, name: string, value: string): (r: seq<CookieEntry>)
    ensures Lookup(r, name) == Some(value)
    ensures forall other :: other != name ==> Lookup(r, other) == Lookup(jar, other)
  {
    if jar == [] then [CookieEntry(name, value)]
    else if jar[0].name == name then [CookieEntry(name, value)] + jar[1..]
    else [jar[0]] + SetCookieIn(jar[1..], name, value)
  }

  lemma {:induction false} SetCookieKeepsWellFormed(jar: seq<CookieEntry>, name: string, value: string)
    requires WellFormed(jar) && name != "" && Token(name) && Token(value)
    ensures WellFormed(SetCookieIn(jar, name, value))
    decreases |jar|
  {
    if jar != [] && jar[0].name != name {
      SetCookieKeepsWellFormed(jar[1..], name, value);
    }
  }
}
