/** The text the exporter writes: comma-joined lines and `%lli` decimals,
    together with the reader's view of them (splitting at commas, parsing
    decimals) that the round-trip lemmas use as partners. */
module CsvText {

  /** Fields joined the way the writer loops emit them: a comma before every
      field except the first. */
  function Join(fields: seq<string>): (line: string)
  {
    if |fields| == 0 then ""
    else if |fields| == 1 then fields[0]
    else Join(fields[..|fields| - 1]) + "," + fields[|fields| - 1]
  }

  /** A line cut at every comma, as a CSV reader sees it. */
  function Split(s: string): (r: seq<string>)
    ensures |r| >= 1
  {
    if |s| == 0 then [""]
    else
      var r := Split(s[..|s| - 1]);
      if s[|s| - 1] == ',' then r + [""]
      else r[..|r| - 1] + [r[|r| - 1] + [s[|s| - 1]]]
  }

  /** Joining one more field appends exactly one comma and the field. */
  lemma JoinSnoc(fields: seq<string>, f: string)
    requires |fields| > 0
    ensures Join(fields + [f]) == Join(fields) + "," + f
  {
    assert (fields + [f])[..|fields|] == fields;
  }

  /** One loop step of a writer: the joined prefix grows by a comma (except
      before the first field) and the next field. */
  lemma JoinStep(fields: seq<string>, j: nat)
    requires j < |fields|
    ensures Join(fields[..j + 1]) == (if j == 0 then "" else Join(fields[..j]) + ",") + fields[j]
  {
    if j > 0 {
      assert fields[..j + 1][..j] == fields[..j];
    }
  }

  /** A text without commas is one field. */
  lemma {:induction false} SplitCommaFree(w: string)
    requires ',' !in w
    ensures Split(w) == [w]
  {
    if |w| > 0 {
      var w' := w[..|w| - 1];
      assert ',' !in w' by {
        forall i | 0 <= i < |w'| ensures w'[i] != ',' { assert w'[i] == w[i]; }
      }
      SplitCommaFree(w');
      assert w' + [w[|w| - 1]] == w;
    }
  }

  /** A comma followed by a comma-free text adds exactly that text as one
      more field. */
  lemma {:induction false} SplitAfterComma(x: string, w: string)
    requires ',' !in w
    ensures Split(x + "," + w) == Split(x) + [w]
  {
    var s := x + "," + w;
    if |w| == 0 {
      assert s[..|s| - 1] == x;
      assert s[|s| - 1] == ',';
    } else {
      var w' := w[..|w| - 1];
      assert ',' !in w' by {
        forall i | 0 <= i < |w'| ensures w'[i] != ',' { assert w'[i] == w[i]; }
      }
      SplitAfterComma(x, w');
      assert s[..|s| - 1] == x + "," + w';
      assert s[|s| - 1] == w[|w| - 1] != ',';
      assert w' + [w[|w| - 1]] == w;
    }
  }

  /** Round trip: splitting a joined line gives back its fields, provided
      there is at least one field and no field contains a comma. */
  lemma {:induction false} SplitJoin(fields: seq<string>)
    requires |fields| > 0
    requires forall i :: 0 <= i < |fields| ==> ',' !in fields[i]
    ensures Split(Join(fields)) == fields
  {
    if |fields| == 1 {
      SplitCommaFree(fields[0]);
    } else {
      var init := fields[..|fields| - 1];
      SplitJoin(init);
      SplitAfterComma(Join(init), fields[|fields| - 1]);
      assert init + [fields[|fields| - 1]] == fields;
    }
  }

  /** No joined text contains a character that none of its fields contains
      unless that character is the comma. */
  lemma {:induction false} JoinAvoids(fields: seq<string>, ch: char)
    requires ch != ','
    requires forall i :: 0 <= i < |fields| ==> ch !in fields[i]
    ensures ch !in Join(fields)
  {
    if |fields| > 1 {
      JoinAvoids(fields[..|fields| - 1], ch);
    }
  }

  function DigitChar(d: nat): (c: char)
    requires d < 10
    ensures '0' <= c <= '9'
  {
    (48 + d) as char
  }

  function DigitValue(c: char): (d: nat)
  {
    if '0' <= c <= '9' then (c as int) - 48 else 0
  }

  /** The decimal digits of a natural number, most significant first. */
  function Digits(n: nat): (s: string)
    ensures |s| >= 1
    ensures forall i :: 0 <= i < |s| ==> '0' <= s[i] <= '9'
  {
    if n < 10 then [DigitChar(n)] else Digits(n / 10) + [DigitChar(n % 10)]
  }

  /** What `%lli` prints for an integer: an optional minus sign and digits. */
  function Decimal(x: int): (s: string)
    ensures |s| >= 1
    ensures ',' !in s && '\n' !in s
  {
    if x < 0 then "-" + Digits(-x) else Digits(x)
  }

  /** The value of a string of decimal digits. */
  function DigitsValue(s: string): (n: nat)
  {
    if |s| == 0 then 0 else 10 * DigitsValue(s[..|s| - 1]) + DigitValue(s[|s| - 1])
  }

  /** The integer a reader recovers from a decimal field. */
  function ParseDecimal(s: string): (x: int)
  {
    if |s| > 0 && s[0] == '-' then -(DigitsValue(s[1..]) as int) else DigitsValue(s)
  }

  lemma {:induction false} DigitsRoundTrip(n: nat)
    ensures DigitsValue(Digits(n)) == n
  {
    if n >= 10 {
      DigitsRoundTrip(n / 10);
      var s := Digits(n / 10) + [DigitChar(n % 10)];
      assert s[..|s| - 1] == Digits(n / 10);
    }
  }

  /** Round trip: parsing what `%lli` prints gives the integer back. */
  lemma DecimalRoundTrip(x: int)
    ensures ParseDecimal(Decimal(x)) == x
  {
    if x < 0 {
      DigitsRoundTrip(-x);
      assert ("-" + Digits(-x))[1..] == Digits(-x);
    } else {
      DigitsRoundTrip(x);
    }
  }
}
