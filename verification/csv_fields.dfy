/** One CSV field on its own: how `escapeStr` in `src/io/csv.ts` doubles
    the quote character, a reference reading of a field in the style of
    RFC 4180 (section 2, rules 5 to 7: a field wrapped in quotes, with an
    escaped quote standing for a quote), and the quoting rule that reading
    needs. */
module CsvFields {
  import opened JsStrings

  /** `str.replace(new RegExp(quote, 'g'), escape + quote)`, for a quote
      character that is not a regex metacharacter */
  function DoubleQuotes(s: string, quote: char, escape: char): (r: string)
    ensures |r| >= |s|
    ensures quote !in s ==> r == s
    ensures |s| == 1 ==> r == if s[0] == quote then [escape, quote] else s
    decreases |s|
  {
    if s == [] then []
    else (if s[0] == quote then [escape, quote] else [s[0]]) + DoubleQuotes(s[1..], quote, escape)
  }

  /** The replacement works character by character: doubling a
      concatenation doubles each part on its own. */
  lemma {:induction false} DoubleQuotesAppend(a: string, b: string, quote: char, escape: char)
    ensures DoubleQuotes(a + b, quote, escape) == DoubleQuotes(a, quote, escape) + DoubleQuotes(b, quote, escape)
    decreases |a|
  {
    if a != [] {
      assert (a + b)[0] == a[0];
      assert (a + b)[1..] == a[1..] + b;
      DoubleQuotesAppend(a[1..], b, quote, escape);
    } else {
      assert a + b == b;
    }
  }

  /** Reading the inside of a quoted field: an escape character followed
      by a quote stands for a quote */
  function Undouble(s: string, quote: char, escape: char): string
    decreases |s|
  {
    if s == [] then []
    else if |s| >= 2 && s[0] == escape && s[1] == quote then [quote] + Undouble(s[2..], quote, escape)
    else [s[0]] + Undouble(s[1..], quote, escape)
  }

  /** A field that starts and ends with the quote character is quoted: the
      quotes are dropped and its escapes undone; any other field is read
      as it stands. */
  function ReadField(f: string, quote: char, escape: char): string {
    if |f| >= 2 && f[0] == quote && f[|f| - 1] == quote then Undouble(f[1..|f| - 1], quote, escape)
    else f
  }

  /** A doubled string never starts with a bare quote unless the escape
      character is the quote itself */
  lemma DoubledStart(s: string, quote: char, escape: char)
    requires s != []
    ensures DoubleQuotes(s, quote, escape)[0] == (if s[0] == quote then escape else s[0])
  {
  }

  /** Undoing the doubling gives the string back, whatever the two
      characters are */
  lemma {:induction false} UndoubleDouble(s: string, quote: char, escape: char)
    ensures Undouble(DoubleQuotes(s, quote, escape), quote, escape) == s
    decreases |s|
  {
    if s != [] {
      var rest := DoubleQuotes(s[1..], quote, escape);
      UndoubleDouble(s[1..], quote, escape);
      if s[0] == quote {
        assert DoubleQuotes(s, quote, escape) == [escape, quote] + rest;
        assert ([escape, quote] + rest)[2..] == rest;
      } else {
        assert DoubleQuotes(s, quote, escape) == [s[0]] + rest;
        assert ([s[0]] + rest)[1..] == rest;
        if s[0] == escape && rest != [] {
          DoubledStart(s[1..], quote, escape);
        }
      }
    }
  }

  /** Wrapping a value in quotes after doubling its quotes: a reader gets
      the value back */
  lemma WrappedReadsBack(s: string, quote: char, escape: char)
    ensures ReadField([quote] + DoubleQuotes(s, quote, escape) + [quote], quote, escape) == s
  {
    var d := DoubleQuotes(s, quote, escape);
    assert ([quote] + d + [quote])[1..|d| + 1] == d;
    UndoubleDouble(s, quote, escape);
  }

  /** The quoting rule the code evidently means: wrap a value whenever it
      contains the separator, the line end or the quote character at all */
  function EscapeField(s: string, separator: string, quote: char, escape: char, eol: string): (r: string)
    ensures ReadField(r, quote, escape) == s
    ensures quote in s ==> r != s
  {
    if IndexOf(s, separator) >= 0 || IndexOf(s, eol) >= 0 || IndexOf(s, [quote]) >= 0 then
      WrappedReadsBack(s, quote, escape);
      [quote] + DoubleQuotes(s, quote, escape) + [quote]
    else
      assert quote !in s by {
        forall i | 0 <= i < |s| ensures s[i] != quote {
          assert !OccursAt(s, [quote], i);
          assert s[i..i + 1] == [s[i]];
        }
      }
      s
  }
}
