/**
 The per-field string expressions of `search_page`
 (scrape_mal_update_db.py:44, 50, 52-56, 58, 61): the person id taken from the
 profile link, the Japanese name, the favorites count and the record key.
 */
module Fields {
  import opened Wrappers
  import opened Text

  /**
   `link.split("/")[4]`: the fifth `/`-separated field of the link. Python
   raises IndexError when there are fewer than five fields; that is `None`.
   */
  function PersonId(link: string): (id: Option<string>)
    ensures id.Some? <==> Count(link, '/') >= 4
    ensures id.Some? ==> '/' !in id.value
  {
    var fields := Split(link, '/');
    if |fields| > 4 then Some(fields[4]) else None
  }

  /**
   A link `f0/f1/f2/f3/id`, optionally followed by `/rest`, whose first five
   fields hold no `/`, yields `id`. The listing's profile links
   `https://myanimelist.net/people/<id>/<name>` have this shape with `f1`
   empty.
   */
  lemma PersonIdOfProfileLink(f0: string, f1: string, f2: string, f3: string, id: string, rest: string)
    requires '/' !in f0 && '/' !in f1 && '/' !in f2 && '/' !in f3 && '/' !in id
    requires rest == [] || rest[0] == '/'
    ensures PersonId(f0 + "/" + f1 + "/" + f2 + "/" + f3 + "/" + id + rest) == Some(id)
  {
    var link := f0 + "/" + f1 + "/" + f2 + "/" + f3 + "/" + id + rest;
    var tail := SplitTail(id, rest);
    var s0 := f0 + ['/'] + (f1 + ['/'] + (f2 + ['/'] + (f3 + ['/'] + (id + rest))));
    assert link == s0;
    SplitFourFields(f0, f1, f2, f3, id + rest);
    assert Split(link, '/')[4] == tail[0];
  }

  lemma SplitFourFields(f0: string, f1: string, f2: string, f3: string, tail: string)
    requires '/' !in f0 && '/' !in f1 && '/' !in f2 && '/' !in f3
    ensures Split(f0 + ['/'] + (f1 + ['/'] + (f2 + ['/'] + (f3 + ['/'] + tail))), '/')
         == [f0, f1, f2, f3] + Split(tail, '/')
  {
    var s3 := f3 + ['/'] + tail;
    var s2 := f2 + ['/'] + s3;
    var s1 := f1 + ['/'] + s2;
    SplitAtFirstSeparator(f3, '/', tail);
    SplitAtFirstSeparator(f2, '/', s3);
    SplitAtFirstSeparator(f1, '/', s2);
    SplitAtFirstSeparator(f0, '/', s1);
  }

  /** The fields of `id + rest` start with `id` when `rest` is empty or starts a new field. */
  lemma SplitTail(id: string, rest: string) returns (fields: seq<string>)
    requires '/' !in id
    requires rest == [] || rest[0] == '/'
    ensures Split(id + rest, '/') == fields && |fields| >= 1 && fields[0] == id
  {
    if rest == [] {
      SplitWithoutSeparator(id, '/');
      assert id + rest == id;
      fields := [id];
    } else {
      assert id + rest == id + ['/'] + rest[1..];
      SplitAtFirstSeparator(id, '/', rest[1..]);
      fields := [id] + Split(rest[1..], '/');
    }
  }

  /**
   The Japanese name column: the span's text stripped and with every `(`
   and `)` removed, or `""` when the row has no such span.
   */
  function JapaneseName(span: Option<string>): (name: string)
    ensures '(' !in name && ')' !in name
    ensures span.None? ==> name == ""
  {
    match span
    case None => ""
    case Some(text) =>
      var withoutOpen := RemoveChar(Strip(text), '(');
      RemoveCharAddsNothing(withoutOpen, ')', '(');
      RemoveChar(withoutOpen, ')')
  }

  /**
   Removing the parentheses keeps every other character of the stripped
   span: a character is in the name iff it is in the stripped text and is
   not a parenthesis.
   */
  lemma JapaneseNameMembers(text: string)
    ensures forall x :: x in JapaneseName(Some(text)) <==> x in Strip(text) && x != '(' && x != ')'
  {
    var withoutOpen := RemoveChar(Strip(text), '(');
    RemoveCharMembers(Strip(text), '(');
    RemoveCharMembers(withoutOpen, ')');
  }

  /** The listing shows the Japanese name in parentheses; this gives back what is inside. */
  lemma JapaneseNameOfParenthesized(pre: string, inner: string, post: string)
    requires AllSpace(pre) && AllSpace(post)
    requires '(' !in inner && ')' !in inner
    ensures JapaneseName(Some(pre + "(" + inner + ")" + post)) == inner
  {
    var shown := "(" + inner + ")";
    assert pre + "(" + inner + ")" + post == pre + shown + post;
    StripPadded(pre, shown, post);
    RemoveParentheses(inner);
  }

  lemma RemoveParentheses(inner: string)
    requires '(' !in inner && ')' !in inner
    ensures RemoveChar(RemoveChar("(" + inner + ")", '('), ')') == inner
  {
    var rest := inner + ")";
    assert "(" + inner + ")" == ['('] + rest;
    RemoveOpen(rest);
    RemoveClose(inner);
  }

  lemma RemoveOpen(rest: string)
    requires '(' !in rest
    ensures RemoveChar(['('] + rest, '(') == rest
  {
    assert (['('] + rest)[1..] == rest;
    RemoveCharAbsent(rest, '(');
  }

  lemma RemoveClose(inner: string)
    requires ')' !in inner
    ensures RemoveChar(inner + ")", ')') == inner
  {
    var close: string := [')'];
    RemoveCharConcat(inner, close, ')');
    assert RemoveChar(close, ')') == [];
    RemoveCharAbsent(inner, ')');
    assert inner + [] == inner;
  }

  /**
   `int(text.strip().replace(",", ""))`, `None` where it raises: `str.strip()`
   removes the whitespace around the cell's text, and `int` reads what is left
   once the commas are gone.
   */
  function ParseFavorites(text: string): Option<nat> {
    IntOf(RemoveChar(Strip(text), ','))
  }

  /**
   A count is only read from a text made of digits, commas and whitespace
   that has at least one digit.
   */
  lemma ParseFavoritesAccepts(text: string)
    requires ParseFavorites(text).Some?
    ensures exists i :: 0 <= i < |text| && IsDigit(text[i])
    ensures forall i :: 0 <= i < |text| ==> IsDigit(text[i]) || text[i] == ',' || IsSpace(text[i])
  {
    var stripped := Strip(text);
    var removed := RemoveChar(stripped, ',');
    var digits := Strip(removed);
    StripCover(text);
    StripCover(removed);
    RemoveCharMembers(stripped, ',');
    assert digits[0] in text;
    assert forall x :: x in stripped ==> IsDigit(x) || x == ',' || IsSpace(x) by {
      forall x | x in stripped ensures IsDigit(x) || x == ',' || IsSpace(x) {
        if x != ',' && !IsSpace(x) {
          var j :| 0 <= j < |removed| && removed[j] == x;
          assert x in digits;
        }
      }
    }
    var k :| 0 <= k < |text| && text[k] == digits[0];
  }

  /** Three digits, with leading zeros, for a number below 1000. */
  function ThreeDigits(n: nat): (s: string)
    requires n < 1000
    ensures |s| == 3 && AllDigits(s)
  {
    [DigitChar(n / 100), DigitChar(n / 10 % 10), DigitChar(n % 10)]
  }

  /** A count as the listing shows it: decimal digits with a comma between thousands. */
  function Grouped(n: nat): (s: string)
    ensures s != [] && IsDigit(s[0]) && IsDigit(s[|s| - 1])
  {
    if n < 1000 then Decimal(n) else Grouped(n / 1000) + "," + ThreeDigits(n % 1000)
  }

  lemma ThreeDigitsValue(n: nat)
    requires n < 1000
    ensures DigitsValue(ThreeDigits(n)) == n
  {
    var s := ThreeDigits(n);
    var a, b, c := n / 100, n / 10 % 10, n % 10;
    assert s[..2][..1] == [DigitChar(a)];
    assert [DigitChar(a)][..0] == [];
    assert DigitsValue(s[..2][..1]) == a;
    assert DigitsValue(s[..2]) == a * 10 + b;
    assert DigitsValue(s) == (a * 10 + b) * 10 + c;
    assert n / 10 == a * 10 + b;
  }

  lemma RemoveSeparator(hi: string, lo: string)
    requires ',' !in lo
    ensures RemoveChar(hi + [','] + lo, ',') == RemoveChar(hi, ',') + lo
  {
    var sep: string := [','];
    var hiSep := hi + sep;
    RemoveCharConcat(hiSep, lo, ',');
    RemoveCharConcat(hi, sep, ',');
    var rh, rs := RemoveChar(hi, ','), RemoveChar(sep, ',');
    assert rs == [];
    assert RemoveChar(hiSep, ',') == rh + rs == rh;
    RemoveCharAbsent(lo, ',');
  }

  /** Appending a comma and three digits to a grouped prefix scales its value by 1000. */
  lemma GroupedStepDigits(hi: string, q: nat, r: nat)
    requires r < 1000
    requires AllDigits(RemoveChar(hi, ',')) && RemoveChar(hi, ',') != []
    requires DigitsValue(RemoveChar(hi, ',')) == q
    ensures AllDigits(RemoveChar(hi + [','] + ThreeDigits(r), ','))
    ensures RemoveChar(hi + [','] + ThreeDigits(r), ',') != []
    ensures DigitsValue(RemoveChar(hi + [','] + ThreeDigits(r), ',')) == q * 1000 + r
  {
    var lo := ThreeDigits(r);
    assert ',' !in lo;
    RemoveSeparator(hi, lo);
    var d := RemoveChar(hi, ',');
    DigitsValueConcat(d, lo);
    ThreeDigitsValue(r);
    assert Pow10(3) == 1000;
  }

  lemma {:induction false} GroupedDigits(n: nat)
    ensures AllDigits(RemoveChar(Grouped(n), ','))
    ensures RemoveChar(Grouped(n), ',') != []
    ensures DigitsValue(RemoveChar(Grouped(n), ',')) == n
  {
    if n < 1000 {
      DecimalValue(n);
      assert ',' !in Decimal(n);
      RemoveCharAbsent(Decimal(n), ',');
    } else {
      GroupedDigits(n / 1000);
      GroupedStepDigits(Grouped(n / 1000), n / 1000, n % 1000);
    }
  }

  /**
   What the favorites cell of the listing holds, padded by any whitespace,
   parses back to the count it shows.
   */
  lemma ParseFavoritesOfListing(pre: string, n: nat, post: string)
    requires AllSpace(pre) && AllSpace(post)
    ensures ParseFavorites(pre + Grouped(n) + post) == Some(n)
  {
    var shown := Grouped(n);
    StripPadded(pre, shown, post);
    GroupedDigits(n);
    var digits := RemoveChar(shown, ',');
    assert ParseFavorites(pre + shown + post) == IntOf(digits);
    IntOfDigits(digits);
  }

  /**
   Removing a comma can bring an information separator to the front of what
   `int` reads. `str.strip()` would have removed it, but `int` does not skip
   it, so the row raises.
   */
  lemma SeparatorBehindCommaRejected()
    ensures ParseFavorites(",\U{1C}5") == None
  {
    var text := ",\U{1C}5";
    assert [] + text + [] == text;
    StripPadded([], text, []);
    var removed := RemoveChar(text, ',');
    assert removed == "\U{1C}5";
    assert IsInfoSeparator(removed[0]);
  }

  /** The `person_id_date` key of a stored record: `id + "_" + today`. */
  function RecordKey(id: string, today: string): string {
    id + "_" + today
  }

  /**
   The key determines the person and the date: always for records of one
   day, and across days as long as ids contain no `_`.
   */
  lemma RecordKeyInjective(id1: string, today1: string, id2: string, today2: string)
    requires RecordKey(id1, today1) == RecordKey(id2, today2)
    requires today1 == today2 || ('_' !in id1 && '_' !in id2)
    ensures id1 == id2 && today1 == today2
  {
    var k := RecordKey(id1, today1);
    assert k[|id1|] == '_' && k[|id2|] == '_';
    assert |id1| == |id2|;
    assert id1 == k[..|id1|] == id2;
    assert today1 == k[|id1| + 1..] == today2;
  }
}
