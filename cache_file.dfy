/**
 * The cache file `ciri.json`: the text `serde_json` writes for the blacklist and
 * reads back at start-up, and how the program writes it.
 *
 * Only the deque is serialised (`lookup` is `#[serde(skip)]`), so the file is the
 * compact JSON object `{"queue":[id,id,...]}`. `Decode` accepts that compact form
 * and nothing else that a JSON parser would also accept (whitespace, escapes);
 * like `serde_json::from_reader`, it refuses any text left over after the object.
 */
module CacheFile {
  import opened Prelude

  const Prefix: string := "{\"queue\":["
  const Suffix: string := "]}"

  predicate IsDigit(c: char)
  {
    '0' <= c <= '9'
  }

  predicate AllDigits(s: string)
  {
    forall i :: 0 <= i < |s| ==> IsDigit(s[i])
  }

  function DigitChar(d: nat): (c: char)
    requires d < 10
    ensures IsDigit(c) && c as int - '0' as int == d
  {
    ('0' as int + d) as char
  }

  /** The decimal text of `n`, as `serde_json` prints an unsigned integer. */
  function Decimal(n: nat): (s: string)
    ensures |s| > 0 && AllDigits(s)
    decreases n
  {
    if n < 10 then [DigitChar(n)] else Decimal(n / 10) + [DigitChar(n % 10)]
  }

  /** The value of a string of decimal digits. */
  function ParseDecimal(s: string): nat
    requires AllDigits(s)
    decreases |s|
  {
    if s == [] then 0 else ParseDecimal(s[..|s| - 1]) * 10 + (s[|s| - 1] as int - '0' as int)
  }

  lemma {:induction false} ParseDecimalOfDecimal(n: nat)
    ensures ParseDecimal(Decimal(n)) == n
    decreases n
  {
    if n >= 10 {
      var s := Decimal(n);
      assert s[..|s| - 1] == Decimal(n / 10);
      ParseDecimalOfDecimal(n / 10);
    }
  }

  /** The ids separated by commas. */
  function JoinIds(ids: seq<u64>): string
    decreases |ids|
  {
    if ids == [] then ""
    else if |ids| == 1 then Decimal(ids[0] as nat)
    else Decimal(ids[0] as nat) + "," + JoinIds(ids[1..])
  }

  /** The file text for a deque of ids. */
  function Encode(ids: seq<u64>): string
  {
    Prefix + JoinIds(ids) + Suffix
  }

  /** The index of the first comma in `s`, or `|s|` when there is none. */
  function FirstComma(s: string): (k: nat)
    ensures k <= |s| && (k < |s| ==> s[k] == ',')
    ensures forall i :: 0 <= i < k ==> s[i] != ','
    decreases |s|
  {
    if s == [] || s[0] == ',' then 0 else 1 + FirstComma(s[1..])
  }

  /** One or more comma-separated ids; an empty field, a non-digit or a value beyond `u64` fails. */
  function DecodeItems(body: string): Option<seq<u64>>
    decreases |body|
  {
    var k := FirstComma(body);
    var field := body[..k];
    if field == [] || !AllDigits(field) then None
    else
      var n := ParseDecimal(field);
      if n >= U64Limit then None
      else if k == |body| then Some([n as u64])
      else match DecodeItems(body[k + 1..])
        case None => None
        case Some(rest) => Some([n as u64] + rest)
  }

  /** Reads the file text back into a deque of ids, or fails. */
  function Decode(text: string): Option<seq<u64>>
  {
    if |text| < |Prefix| + |Suffix| then None
    else if text[..|Prefix|] != Prefix || text[|text| - |Suffix|..] != Suffix then None
    else
      var body := text[|Prefix|..|text| - |Suffix|];
      if body == [] then Some([]) else DecodeItems(body)
  }

  /** The first comma after a run of digits is the one right after it. */
  lemma {:induction false} FirstCommaAfterDigits(d: string, t: string)
    requires AllDigits(d) && (t == [] || t[0] == ',')
    ensures FirstComma(d + t) == |d|
    decreases |d|
  {
    if d != [] {
      assert (d + t)[1..] == d[1..] + t;
      FirstCommaAfterDigits(d[1..], t);
    }
  }

  lemma {:induction false} DecodeItemsOfJoin(ids: seq<u64>)
    requires ids != []
    ensures DecodeItems(JoinIds(ids)) == Some(ids)
    decreases |ids|
  {
    var d := Decimal(ids[0] as nat);
    ParseDecimalOfDecimal(ids[0] as nat);
    var body := JoinIds(ids);
    if |ids| == 1 {
      FirstCommaAfterDigits(d, []);
      assert d + [] == d;
      assert body[..|d|] == d;
      assert ids == [ids[0]];
    } else {
      assert body == d + ("," + JoinIds(ids[1..]));
      FirstCommaAfterDigits(d, "," + JoinIds(ids[1..]));
      assert body[..|d|] == d;
      assert body[|d| + 1..] == JoinIds(ids[1..]);
      DecodeItemsOfJoin(ids[1..]);
      assert [ids[0]] + ids[1..] == ids;
    }
  }

  /** Reading back what was written gives the same deque. */
  lemma DecodeEncode(ids: seq<u64>)
    ensures Decode(Encode(ids)) == Some(ids)
  {
    var text := Encode(ids);
    assert text[..|Prefix|] == Prefix;
    assert text[|text| - |Suffix|..] == Suffix;
    assert text[|Prefix|..|text| - |Suffix|] == JoinIds(ids);
    if ids != [] {
      DecodeItemsOfJoin(ids);
    }
  }

  /** `DecodeEncode` for every deque at once, for contracts that quantify over deques. */
  lemma DecodeEncodeEvery()
    ensures forall ids: seq<u64> :: Decode(Encode(ids)) == Some(ids)
  {
    forall ids: seq<u64>
      ensures Decode(Encode(ids)) == Some(ids)
    {
      DecodeEncode(ids);
    }
  }

  /** A list body holding a character that is neither a digit nor a comma does not decode. */
  lemma {:induction false} StrayCharacterRejected(body: string, i: nat)
    requires i < |body| && !IsDigit(body[i]) && body[i] != ','
    ensures DecodeItems(body) == None
    decreases |body|
  {
    var k := FirstComma(body);
    if i < k {
      assert body[..k][i] == body[i];
    } else if AllDigits(body[..k]) && k < |body| {
      assert i > k;
      StrayCharacterRejected(body[k + 1..], i - k - 1);
    }
  }

  /**
   * How `src/main.rs` writes the file: opened with `write(true).create(true)` but
   * not `truncate(true)`, so bytes of the previous contents beyond the new text stay.
   */
  function WriteInPlace(previous: string, text: string): (r: string)
    ensures |text| >= |previous| ==> r == text
    ensures |text| < |previous| ==> |r| == |previous| && r[..|text|] == text
    ensures |text| < |previous| ==> r[|text|..] == previous[|text|..]
  {
    if |text| >= |previous| then text else text + previous[|text|..]
  }

  /**
   * Whenever the file holds an earlier serialisation that is longer than the new
   * one, the file as written no longer decodes: the next start-up finds it
   * unreadable.
   */
  lemma ShorterWriteUnreadable(earlier: seq<u64>, ids: seq<u64>)
    requires |Encode(ids)| < |Encode(earlier)|
    ensures Decode(WriteInPlace(Encode(earlier), Encode(ids))) == None
  {
    var e := Encode(ids);
    var w := WriteInPlace(Encode(earlier), e);
    var j := |Prefix| + |JoinIds(ids)|;
    assert w[j] == e[j] == ']';
    if |w| >= |Prefix| + |Suffix| && w[..|Prefix|] == Prefix && w[|w| - |Suffix|..] == Suffix {
      var body := w[|Prefix|..|w| - |Suffix|];
      assert body[j - |Prefix|] == ']';
      StrayCharacterRejected(body, j - |Prefix|);
    }
  }

  /**
   * The file as written with truncation (`truncate(true)`): exactly the new text,
   * whatever it held before, so it reads back to the saved deque.
   */
  function Saved(ids: seq<u64>): (r: string)
    ensures Decode(r) == Some(ids)
  {
    DecodeEncode(ids);
    Encode(ids)
  }
}
