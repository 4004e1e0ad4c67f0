/** The text of the catalog export (`exportToCSV`): a header line and one
    line per gift, fields joined by commas, lines joined by newlines.
    Text fields are wrapped in double quotes and nothing is escaped. */
module Csv {
  import opened Gifts

  // ---------------------------------------------------------------------
  // Number rendering

  predicate IsDigit(c: char) { '0' <= c <= '9' }

  predicate IsDigits(s: string) { forall i :: 0 <= i < |s| ==> IsDigit(s[i]) }

  function Digit(d: nat): (c: char)
    requires d < 10
    ensures IsDigit(c) && c as int - '0' as int == d
  {
    ('0' as int + d) as char
  }

  /** The decimal digits of `n`, without leading zeros. */
  function NatToString(n: nat): (r: string)
    ensures |r| > 0 && IsDigits(r)
    ensures r[0] == '0' ==> n == 0
    decreases n
  {
    if n < 10 then [Digit(n)] else NatToString(n / 10) + [Digit(n % 10)]
  }

  /** The number a string of decimal digits denotes. */
  function DigitsValue(s: string): nat
    requires IsDigits(s)
  {
    if s == [] then 0
    else DigitsValue(s[..|s| - 1]) * 10 + (s[|s| - 1] as int - '0' as int)
  }

  /** Reading back the digits gives the number. */
  lemma {:induction false} NatToStringRoundTrip(n: nat)
    ensures DigitsValue(NatToString(n)) == n
    decreases n
  {
    if n >= 10 {
      var s := NatToString(n);
      assert s[..|s| - 1] == NatToString(n / 10);
      NatToStringRoundTrip(n / 10);
    }
  }

  /** `String(n)` for an integer. */
  function IntToString(i: int): (r: string)
    ensures forall k :: 0 <= k < |r| ==> IsDigit(r[k]) || r[k] == '-'
  {
    if i < 0 then "-" + NatToString(-i) else NatToString(i)
  }

  /** The text of a number reads back as that number: a leading minus
      exactly for a negative number, then the digits of its magnitude. */
  lemma IntToStringDenotes(i: int)
    ensures var r := IntToString(i);
      (|r| > 0 && r[0] == '-') <==> i < 0
    ensures var r := IntToString(i);
      var d := if i < 0 then r[1..] else r;
      |d| > 0 && IsDigits(d) && DigitsValue(d) == (if i < 0 then -i else i)
  {
    NatToStringRoundTrip(if i < 0 then -i else i);
    if i < 0 {
      assert IntToString(i)[1..] == NatToString(-i);
    }
  }

  /** `String(cents / 100)` as JavaScript prints a price with at most two
      decimals: no trailing zeros and no point for a whole amount. */
  function PriceText(cents: int): (r: string)
    ensures forall k :: 0 <= k < |r| ==> IsDigit(r[k]) || r[k] == '-' || r[k] == '.'
  {
    var c: nat := if cents < 0 then -cents else cents;
    var whole := NatToString(c / 100);
    var frac := c % 100;
    var text :=
      if frac == 0 then whole
      else if frac % 10 == 0 then whole + "." + [Digit(frac / 10)]
      else whole + "." + [Digit(frac / 10), Digit(frac % 10)];
    if cents < 0 then "-" + text else text
  }

  /** The rendered price reads back as the amount: the digits before the
      point are the whole units, a point appears exactly when there are
      cents, and the one or two digits after it, without a trailing zero,
      are the cents. */
  lemma PriceTextDenotes(cents: nat)
    ensures var parts := Split(PriceText(cents), '.');
      1 <= |parts| <= 2 && IsDigits(parts[0]) && DigitsValue(parts[0]) == cents / 100 &&
      (|parts| == 1 <==> cents % 100 == 0)
    ensures var parts := Split(PriceText(cents), '.');
      |parts| == 2 ==>
        IsDigits(parts[1]) && 1 <= |parts[1]| <= 2 && parts[1][|parts[1]| - 1] != '0' &&
        DigitsValue(parts[1]) * (if |parts[1]| == 1 then 10 else 1) == cents % 100
  {
    var whole := NatToString(cents / 100);
    var frac := cents % 100;
    NatToStringRoundTrip(cents / 100);
    assert '.' !in whole;
    SplitNoSep(whole, '.');
    if frac != 0 {
      var digits := if frac % 10 == 0 then [Digit(frac / 10)] else [Digit(frac / 10), Digit(frac % 10)];
      assert PriceText(cents) == whole + ['.'] + digits;
      SplitAtSep(whole, '.', digits);
      SplitNoSep(digits, '.');
      assert Split(PriceText(cents), '.') == [whole, digits];
      if frac % 10 == 0 {
        OneDigitValue(frac / 10);
      } else {
        TwoDigitValue(frac / 10, frac % 10);
      }
    }
  }

  lemma OneDigitValue(d: nat)
    requires d < 10
    ensures DigitsValue([Digit(d)]) == d
  {
    assert [Digit(d)][..0] == [];
  }

  lemma TwoDigitValue(a: nat, b: nat)
    requires a < 10 && b < 10
    ensures DigitsValue([Digit(a), Digit(b)]) == 10 * a + b
  {
    assert [Digit(a), Digit(b)][..1] == [Digit(a)];
    OneDigitValue(a);
  }

  // ---------------------------------------------------------------------
  // Join and split

  /** `parts.join(sep)`. */
  function Join(parts: seq<string>, sep: char): string {
    if parts == [] then ""
    else if |parts| == 1 then parts[0]
    else parts[0] + [sep] + Join(parts[1..], sep)
  }

  /** `s.split(sep)`: the pieces between separators; never empty. */
  function Split(s: string, sep: char): (r: seq<string>)
    ensures |r| > 0
  {
    if s == [] then [""]
    else
      var rest := Split(s[1..], sep);
      if s[0] == sep then [""] + rest else [[s[0]] + rest[0]] + rest[1..]
  }

  lemma {:induction false} SplitNoSep(a: string, sep: char)
    requires sep !in a
    ensures Split(a, sep) == [a]
  {
    if a != [] {
      SplitNoSep(a[1..], sep);
      assert [a[0]] + a[1..] == a;
    }
  }

  lemma {:induction false} SplitAtSep(a: string, sep: char, b: string)
    requires sep !in a
    ensures Split(a + [sep] + b, sep) == [a] + Split(b, sep)
  {
    var s := a + [sep] + b;
    if a == [] {
      assert s[0] == sep && s[1..] == b;
    } else {
      assert s[0] == a[0] && s[1..] == a[1..] + [sep] + b;
      SplitAtSep(a[1..], sep, b);
      assert [a[0]] + a[1..] == a;
    }
  }

  /** Splitting undoes joining when no part contains the separator. */
  lemma {:induction false} SplitJoin(parts: seq<string>, sep: char)
    requires |parts| > 0
    requires forall k :: 0 <= k < |parts| ==> sep !in parts[k]
    ensures Split(Join(parts, sep), sep) == parts
  {
    if |parts| == 1 {
      SplitNoSep(parts[0], sep);
    } else {
      SplitAtSep(parts[0], sep, Join(parts[1..], sep));
      SplitJoin(parts[1..], sep);
    }
  }

  /** How often `c` occurs in `s`. */
  function Count(s: string, c: char): nat { multiset(s)[c] }

  /** A string splits into one piece more than it has separators. */
  lemma {:induction false} SplitLength(s: string, sep: char)
    ensures |Split(s, sep)| == Count(s, sep) + 1
  {
    if s != [] {
      SplitLength(s[1..], sep);
      assert s == [s[0]] + s[1..];
    }
  }

  /** The total count of `c` over the parts. */
  function CountAll(parts: seq<string>, c: char): nat {
    if parts == [] then 0 else Count(parts[0], c) + CountAll(parts[1..], c)
  }

  /** A joined string holds the parts' occurrences of `c`, plus the
      separators when `c` is the separator. */
  lemma {:induction false} JoinCount(parts: seq<string>, sep: char, c: char)
    requires |parts| > 0
    ensures Count(Join(parts, sep), c) == CountAll(parts, c) + (if c == sep then |parts| - 1 else 0)
  {
    if |parts| > 1 {
      JoinCount(parts[1..], sep, c);
    } else {
      assert parts[1..] == [];
    }
  }

  lemma JoinLacks(parts: seq<string>, sep: char, c: char)
    requires c != sep && forall k :: 0 <= k < |parts| ==> c !in parts[k]
    ensures c !in Join(parts, sep)
  {
    if parts != [] {
      JoinCount(parts, sep, c);
      CountAllZero(parts, c);
    }
  }

  lemma {:induction false} CountAllZero(parts: seq<string>, c: char)
    ensures (forall k :: 0 <= k < |parts| ==> c !in parts[k]) <==> CountAll(parts, c) == 0
  {
    if parts != [] {
      CountAllZero(parts[1..], c);
      if CountAll(parts, c) == 0 {
        forall k | 0 <= k < |parts| ensures c !in parts[k] {
          if k > 0 { assert parts[k] == parts[1..][k - 1]; }
        }
      }
      if forall k :: 0 <= k < |parts| ==> c !in parts[k] {
        assert forall k :: 0 <= k < |parts[1..]| ==> parts[1..][k] == parts[k + 1];
      }
    }
  }

  // ---------------------------------------------------------------------
  // The export

  const Headers: seq<string> := ["ID", "Tienda", "Artículo", "Descripción", "Cantidad", "Precio",
                                 "Estado", "Fecha de compra", "Comprador", "URL de Imagen"]

  /** `headers.join(',')`. */
  function HeaderLine(): string { Join(Headers, ',') }

  /** The status as stored and exported. */
  function StatusText(s: Status): (r: string)
    ensures r == "Aún disponible" <==> s == Available
    ensures r == "Ya fue comprado" <==> s == Purchased
  {
    match s
    case Available => "Aún disponible"
    case Purchased => "Ya fue comprado"
  }

  /** `"${text}"`: wrapped in double quotes, nothing escaped. */
  function Quote(text: string): string { "\"" + text + "\"" }

  /** Dropping the first and last character of a quoted text gives the text
      back; those two characters are quotes. */
  lemma QuoteUnwraps(text: string)
    ensures var r := Quote(text);
      |r| == |text| + 2 && r[0] == '"' && r[|r| - 1] == '"' && r[1..|r| - 1] == text
  {
  }

  /** `gift.purchasedAt || ""`. */
  function PurchasedText(at: Option<Timestamp>): (r: string)
    ensures at.Some? ==> r == at.value
    ensures r == "" <==> at.None? || at.value == ""
  {
    match at
    case None => ""
    case Some(t) => t
  }

  /** The ten exported fields of a gift, in header order. */
  function RowFields(g: Gift): (r: seq<string>)
    ensures |r| == |Headers|
  {
    [IntToString(g.id), Quote(g.store), Quote(g.item), Quote(g.description),
     IntToString(g.quantity), PriceText(g.price), Quote(StatusText(g.status)),
     PurchasedText(g.purchasedAt), Quote(g.purchaserName), Quote(g.imageUrl)]
  }

  /** A gift's line: its fields joined by commas. */
  function Row(g: Gift): string { Join(RowFields(g), ',') }

  /** The lines of the export: the header, then one per gift in order. */
  function Lines(header: string, gs: seq<Gift>): (r: seq<string>)
    ensures |r| == |gs| + 1 && r[0] == header
    ensures forall i :: 0 <= i < |gs| ==> r[i + 1] == Row(gs[i])
  {
    var rows := Rows(gs);
    var r := [header] + rows;
    assert r[1..] == rows;
    r
  }

  function Rows(gs: seq<Gift>): (r: seq<string>)
    ensures |r| == |gs|
    ensures forall i :: 0 <= i < |gs| ==> r[i] == Row(gs[i])
  {
    if gs == [] then [] else [Row(gs[0])] + Rows(gs[1..])
  }

  /** `csvContent`. */
  function Export(gs: seq<Gift>): string { Join(Lines(HeaderLine(), gs), '\n') }

  /** None of a gift's exported text holds `c`. */
  predicate TextLacks(g: Gift, c: char) {
    c !in g.store && c !in g.item && c !in g.description && c !in g.purchaserName &&
    c !in g.imageUrl && c !in PurchasedText(g.purchasedAt)
  }

  lemma QuoteLacks(text: string, c: char)
    requires c != '"'
    ensures c !in Quote(text) <==> c !in text
  {
  }

  lemma StatusTextLacks(s: Status)
    ensures '\n' !in StatusText(s) && ',' !in StatusText(s)
  {
  }

  lemma NumberLacks(i: int, c: char)
    requires c == '\n' || c == ','
    ensures c !in IntToString(i)
  {
    var r := IntToString(i);
    forall k | 0 <= k < |r| ensures r[k] != c {
      assert IsDigit(r[k]) || r[k] == '-';
    }
  }

  lemma PriceLacks(cents: int, c: char)
    requires c == '\n' || c == ','
    ensures c !in PriceText(cents)
  {
    var r := PriceText(cents);
    forall k | 0 <= k < |r| ensures r[k] != c {
      assert IsDigit(r[k]) || r[k] == '-' || r[k] == '.';
    }
  }

  /** For a newline or a comma: the ten fields lack it exactly when the
      gift's exported text does. */
  lemma FieldsLackIff(g: Gift, c: char)
    requires c == '\n' || c == ','
    ensures (forall k :: 0 <= k < |RowFields(g)| ==> c !in RowFields(g)[k]) <==> TextLacks(g, c)
  {
    var f := RowFields(g);
    StatusTextLacks(g.status);
    QuoteLacks(g.store, c);
    QuoteLacks(g.item, c);
    QuoteLacks(g.description, c);
    QuoteLacks(StatusText(g.status), c);
    QuoteLacks(g.purchaserName, c);
    QuoteLacks(g.imageUrl, c);
    assert f[1] == Quote(g.store) && f[2] == Quote(g.item) && f[3] == Quote(g.description);
    assert f[7] == PurchasedText(g.purchasedAt) && f[8] == Quote(g.purchaserName) && f[9] == Quote(g.imageUrl);
    NumberLacks(g.id, c);
    NumberLacks(g.quantity, c);
    PriceLacks(g.price, c);
    assert f[0] == IntToString(g.id) && f[4] == IntToString(g.quantity) && f[5] == PriceText(g.price);
    assert c !in f[6];
    if TextLacks(g, c) {
      forall k | 0 <= k < |f| ensures c !in f[k] {
        assert k in {0, 1, 2, 3, 4, 5, 6, 7, 8, 9};
      }
    }
  }

  /** A join begins with its first part, followed by the separator when
      more parts come; a single part is joined to itself. */
  lemma JoinStartsWith(parts: seq<string>, sep: char)
    requires parts != []
    ensures var r := Join(parts, sep);
      |r| >= |parts[0]| && r[..|parts[0]|] == parts[0] &&
      (|parts| == 1 ==> r == parts[0]) &&
      (|parts| > 1 ==> |r| > |parts[0]| && r[|parts[0]|] == sep)
  {
  }

  /** The header line names the ten columns. */
  lemma HeaderColumns()
    ensures Split(HeaderLine(), ',') == Headers && |Headers| == 10
  {
    CellsLackComma();
    SplitJoin(Headers, ',');
  }

  /** A gift's line begins with its id and a comma. */
  lemma RowStartsWithId(g: Gift)
    ensures var id := IntToString(g.id);
      |Row(g)| > |id| && Row(g)[..|id| + 1] == id + ","
  {
    var f := RowFields(g);
    JoinStartsWith(f, ',');
    assert Row(g)[..|f[0]| + 1] == f[0] + [','];
  }

  /** The export begins with the header line, and is just the header line
      for an empty catalog. */
  lemma ExportStartsWithHeader(gs: seq<Gift>)
    ensures var r := Export(gs);
      |r| >= |HeaderLine()| && r[..|HeaderLine()|] == HeaderLine() &&
      (gs == [] ==> r == HeaderLine())
  {
    JoinStartsWith(Lines(HeaderLine(), gs), '\n');
  }

  lemma CellsLackComma()
    ensures forall k :: 0 <= k < |Headers| ==> ',' !in Headers[k]
  {
  }

  /** A gift's line splits at commas into its ten fields exactly when no
      exported text holds a comma: a comma in a text adds a column. */
  lemma RowColumns(g: Gift)
    ensures Split(Row(g), ',') == RowFields(g) <==> TextLacks(g, ',')
  {
    var f := RowFields(g);
    FieldsLackIff(g, ',');
    if TextLacks(g, ',') {
      SplitJoin(f, ',');
    } else {
      JoinCount(f, ',', ',');
      CountAllZero(f, ',');
      SplitLength(Row(g), ',');
    }
  }

  lemma CellsLackNewline()
    ensures forall k :: 0 <= k < |Headers| ==> '\n' !in Headers[k]
  {
  }

  lemma HeaderLacksNewline()
    ensures '\n' !in HeaderLine()
  {
    CellsLackNewline();
    JoinLacks(Headers, ',', '\n');
  }

  /** No line of the export holds a newline when no exported text does. */
  lemma LinesLackNewline(gs: seq<Gift>)
    requires forall i :: 0 <= i < |gs| ==> TextLacks(gs[i], '\n')
    ensures forall k :: 0 <= k < |Lines(HeaderLine(), gs)| ==> '\n' !in Lines(HeaderLine(), gs)[k]
  {
    HeaderLacksNewline();
    forall i | 0 <= i < |gs| ensures '\n' !in Row(gs[i]) {
      RowLacksIff(gs[i]);
    }
  }

  /** When no exported text holds a newline, the export has exactly one
      line per gift after the header, in catalog order, each beginning with
      that gift's id. */
  lemma ExportLines(gs: seq<Gift>)
    requires forall i :: 0 <= i < |gs| ==> TextLacks(gs[i], '\n')
    ensures var lines := Split(Export(gs), '\n');
      |lines| == |gs| + 1 && lines[0] == HeaderLine() &&
      forall i :: 0 <= i < |gs| ==>
        (lines[i + 1] == Row(gs[i]) &&
         lines[i + 1][..|IntToString(gs[i].id)| + 1] == IntToString(gs[i].id) + ",")
  {
    LinesLackNewline(gs);
    SplitJoin(Lines(HeaderLine(), gs), '\n');
    forall i | 0 <= i < |gs| ensures
      |Row(gs[i])| > |IntToString(gs[i].id)| &&
      Row(gs[i])[..|IntToString(gs[i].id)| + 1] == IntToString(gs[i].id) + ","
    {
      RowStartsWithId(gs[i]);
    }
  }

  /** A newline inside the text of any gift adds a line to the export:
      the export has |gs| + 1 lines exactly when no exported text holds a
      newline. */
  lemma ExportLineCount(gs: seq<Gift>)
    ensures |Split(Export(gs), '\n')| == |gs| + 1 <==>
      forall i :: 0 <= i < |gs| ==> TextLacks(gs[i], '\n')
  {
    var lines := Lines(HeaderLine(), gs);
    SplitLength(Export(gs), '\n');
    JoinCount(lines, '\n', '\n');
    CountAllZero(lines, '\n');
    if forall i :: 0 <= i < |gs| ==> TextLacks(gs[i], '\n') {
      LinesLackNewline(gs);
    } else {
      var i :| 0 <= i < |gs| && !TextLacks(gs[i], '\n');
      RowLacksIff(gs[i]);
      assert '\n' in lines[i + 1];
    }
  }

  /** A gift's line lacks a newline exactly when its exported text does. */
  lemma RowLacksIff(g: Gift)
    ensures '\n' !in Row(g) <==> TextLacks(g, '\n')
  {
    var f := RowFields(g);
    JoinCount(f, ',', '\n');
    CountAllZero(f, '\n');
    FieldsLackIff(g, '\n');
  }
}
