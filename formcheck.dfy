/** The print form handled by `index()` in both Flask servers (backend/app.py, which queues the
    job, and app.py, which prints it at once): the Python string operations it relies on, the
    validation of the printer, file, counts, order and density fields, the error messages, and
    the job that is handed on when there are none. */
module FormCheck {
  import opened Common
  import Printer

  // ---------------------------------------------------------------------------------------------
  // File names

  /** str.lower() on one character. Only the ASCII letters are folded. */
  function LowerChar(c: char): char {
    if 'A' <= c <= 'Z' then (c as int + 32) as char else c
  }

  /** str.lower() on the ASCII letters; the length is kept. */
  function Lower(s: string): (r: string)
    ensures |r| == |s|
  {
    seq(|s|, k requires 0 <= k < |s| => LowerChar(s[k]))
  }

  /** Lowering leaves no capital A .. Z and keeps every other character, so it changes nothing
      a second time. */
  lemma {:induction false} LowerCase(s: string)
    ensures forall k :: 0 <= k < |s| ==> !('A' <= Lower(s)[k] <= 'Z')
    ensures forall k :: 0 <= k < |s| && !('A' <= s[k] <= 'Z') ==> Lower(s)[k] == s[k]
    ensures Lower(Lower(s)) == Lower(s)
  {
  }

  /** The extensions allowed_file accepts, in lower case. */
  const AllowedExtensions: set<string> := {"png", "jpg", "jpeg", "bmp"}

  /** `s.rsplit('.', 1)` read as a pair: None when `s` has no dot, otherwise the text before and
      after its last dot. */
  function RSplitDot(s: string): (r: Option<(string, string)>)
    ensures r.None? <==> '.' !in s
    ensures r.Some? ==> s == r.value.0 + "." + r.value.1 && '.' !in r.value.1
  {
    if s == [] then None
    else
      var init, last := s[..|s| - 1], s[|s| - 1];
      assert s == init + [last];
      if last == '.' then Some((init, ""))
      else match RSplitDot(init)
        case None => None
        case Some((before, after)) => Some((before, after + [last]))
  }

  /** allowed_file: the name has a dot, and the text after its last dot, lower-cased, is png, jpg,
      jpeg or bmp. */
  function AllowedFile(filename: string): (ok: bool)
    ensures ok ==> '.' in filename && |filename| >= 4 && filename[|filename| - 1] != '.'
  {
    match RSplitDot(filename)
    case None => false
    case Some((_, ext)) => Lower(ext) in AllowedExtensions
  }

  /** Splitting `name.ext` at its last dot gives back `name` and `ext` when `ext` has no dot. */
  lemma {:induction false} RSplitDotOf(name: string, ext: string)
    requires '.' !in ext
    ensures RSplitDot(name + "." + ext) == Some((name, ext))
  {
    var s := name + "." + ext;
    if ext == [] {
      assert s[..|s| - 1] == name;
    } else {
      var e', c := ext[..|ext| - 1], ext[|ext| - 1];
      assert ext == e' + [c];
      RSplitDotOf(name, e');
      assert s[..|s| - 1] == name + "." + e';
    }
  }

  /** A name is allowed exactly when its final extension is one of the four, in any letter case;
      the part before the last dot does not matter. */
  lemma {:induction false} AllowedFileIff(name: string, ext: string)
    requires '.' !in ext
    ensures AllowedFile(name + "." + ext) <==> Lower(ext) in AllowedExtensions
  {
    RSplitDotOf(name, ext);
  }

  /** Examples of allowed names: the case of the extension is ignored, and only the last
      extension counts. */
  lemma {:induction false} AllowedFileExamples()
    ensures AllowedFile("scan.PNG") && AllowedFile("a.b.JPeg")
  {
    assert "scan" + "." + "PNG" == "scan.PNG";
    AllowedFileIff("scan", "PNG");
    assert Lower("PNG") == "png";
    assert "a.b" + "." + "JPeg" == "a.b.JPeg";
    AllowedFileIff("a.b", "JPeg");
    assert Lower("JPeg") == "jpeg";
  }

  /** Examples of refused names: another extension, and no dot at all. */
  lemma {:induction false} RefusedFileExamples()
    ensures !AllowedFile("photo.gif") && !AllowedFile("png")
  {
    assert "photo" + "." + "gif" == "photo.gif";
    AllowedFileIff("photo", "gif");
    assert Lower("gif") == "gif";
  }

  /** An allowed extension followed by another one is refused: only the last one counts. */
  lemma {:induction false} LastExtensionExample()
    ensures !AllowedFile("photo.png.txt")
  {
    assert "photo.png" + "." + "txt" == "photo.png.txt";
    AllowedFileIff("photo.png", "txt");
    assert Lower("txt") == "txt";
  }

  // ---------------------------------------------------------------------------------------------
  // Comma-separated number lists

  /** ",".join(parts). */
  function Join(parts: seq<string>): string {
    if |parts| == 0 then ""
    else if |parts| == 1 then parts[0]
    else Join(parts[..|parts| - 1]) + "," + parts[|parts| - 1]
  }

  /** parts with t appended to its last part. */
  function ExtendLast(parts: seq<string>, t: string): seq<string>
    requires |parts| >= 1
  {
    parts[..|parts| - 1] + [parts[|parts| - 1] + t]
  }

  /** Extending the last part extends the joined text. */
  lemma {:induction false} JoinExtendLast(parts: seq<string>, t: string)
    requires |parts| >= 1
    ensures Join(ExtendLast(parts, t)) == Join(parts) + t
  {
    var n := |parts|;
    var init, last := parts[..n - 1], parts[n - 1];
    assert parts == init + [last];
    assert ExtendLast(parts, t) == init + [last + t];
    if n >= 2 {
      JoinSnoc(init, last);
      JoinSnoc(init, last + t);
      assert Join(init) + "," + (last + t) == (Join(init) + "," + last) + t;
    }
  }

  /** Joining one more part appends a comma and that part. */
  lemma {:induction false} JoinSnoc(init: seq<string>, x: string)
    requires |init| >= 1
    ensures Join(init + [x]) == Join(init) + "," + x
  {
    var s := init + [x];
    assert s[..|s| - 1] == init;
  }

  lemma {:induction false} ExtendLastTwice(parts: seq<string>, t: string, c: char)
    requires |parts| >= 1
    ensures ExtendLast(ExtendLast(parts, t), [c]) == ExtendLast(parts, t + [c])
  {
    var p' := ExtendLast(parts, t);
    assert p'[..|p'| - 1] == parts[..|parts| - 1];
    assert parts[|parts| - 1] + t + [c] == parts[|parts| - 1] + (t + [c]);
  }

  /** str.split(','): the texts between consecutive commas, one more than there are commas. */
  function Split(s: string): (parts: seq<string>)
    ensures |parts| >= 1
    ensures forall k :: 0 <= k < |parts| ==> ',' !in parts[k]
  {
    if s == [] then [""]
    else
      var init, last := s[..|s| - 1], s[|s| - 1];
      var rest := Split(init);
      if last == ',' then rest + [""]
      else ExtendLast(rest, [last])
  }

  /** ",".join undoes str.split(','). */
  lemma {:induction false} JoinSplit(s: string)
    ensures Join(Split(s)) == s
  {
    if s != [] {
      var init, last := s[..|s| - 1], s[|s| - 1];
      assert s == init + [last];
      var rest := Split(init);
      JoinSplit(init);
      if last == ',' {
        assert (rest + [""])[..|rest|] == rest;
      } else {
        JoinExtendLast(rest, [last]);
      }
    }
  }

  /** Appending one character other than a comma extends the last part. */
  lemma {:induction false} SplitSnoc(u: string, c: char)
    requires c != ','
    ensures Split(u + [c]) == ExtendLast(Split(u), [c])
  {
    assert (u + [c])[..|u|] == u;
  }

  /** Appending a comma starts a new, empty part. */
  lemma {:induction false} SplitComma(u: string)
    ensures Split(u + ",") == Split(u) + [""]
  {
    assert (u + ",")[..|u|] == u;
  }

  lemma {:induction false} NoCommaInit(t: string)
    requires |t| >= 1 && ',' !in t
    ensures ',' !in t[..|t| - 1] && t[|t| - 1] != ','
  {
    assert t[|t| - 1] in t;
    assert forall m :: 0 <= m < |t| - 1 ==> t[..|t| - 1][m] == t[m];
  }

  /** Appending text without a comma extends the last part. */
  lemma {:induction false} SplitAppendPart(s: string, t: string)
    requires ',' !in t
    ensures Split(s + t) == ExtendLast(Split(s), t)
  {
    var p := Split(s);
    if t == [] {
      assert s + t == s;
      assert p[|p| - 1] + t == p[|p| - 1];
      assert p[..|p| - 1] + [p[|p| - 1]] == p;
    } else {
      var t', c := t[..|t| - 1], t[|t| - 1];
      NoCommaInit(t);
      SplitAppendPart(s, t');
      assert s + t == (s + t') + [c];
      SplitSnoc(s + t', c);
      ExtendLastTwice(p, t', c);
      assert t' + [c] == t;
    }
  }

  /** str.split(',') undoes ",".join on parts without commas. */
  lemma {:induction false} SplitJoin(parts: seq<string>)
    requires |parts| >= 1
    requires forall k :: 0 <= k < |parts| ==> ',' !in parts[k]
    ensures Split(Join(parts)) == parts
  {
    if |parts| == 1 {
      SplitAppendPart("", parts[0]);
      assert "" + parts[0] == parts[0];
    } else {
      var init, last := parts[..|parts| - 1], parts[|parts| - 1];
      SplitJoin(init);
      var s := Join(init) + ",";
      SplitComma(Join(init));
      SplitAppendPart(s, last);
      assert Join(parts) == s + last;
      assert ExtendLast(init + [""], last) == parts by {
        assert (init + [""])[..|init|] == init;
        assert "" + last == last;
      }
    }
  }

  /** str.isspace() of one character: the characters str.strip() removes. Space, tab, newline
      and carriage return are among them; digits and the comma are not. */
  predicate IsSpace(c: char): (b: bool)
    ensures c == ' ' || c == '\t' || c == '\n' || c == '\r' ==> b
    ensures b ==> !IsDigit(c) && c != ','
  {
    var n := c as int;
    9 <= n <= 13 || 0x1C <= n <= 0x20 || n == 0x85 || n == 0xA0 || n == 0x1680
    || 0x2000 <= n <= 0x200A || n == 0x2028 || n == 0x2029 || n == 0x202F || n == 0x205F || n == 0x3000
  }

  /** The information separators U+001C .. U+001F: str.isspace() accepts them, int() does not. */
  predicate IsSeparator(c: char) {
    0x1C <= c as int <= 0x1F
  }

  /** The whitespace int() skips around a number. CPython first turns every non-ASCII
      whitespace character into a space and then skips only the ASCII space, \t, \n, \v, \f
      and \r, so this is str.isspace() without the four separators. */
  predicate IsIntSpace(c: char): (b: bool)
    ensures c as int < 0x80 ==> (b <==> c as int in {9, 10, 11, 12, 13, 32})
    ensures b ==> !NumberChar(c)
  {
    IsSpace(c) && !IsSeparator(c)
  }

  /** s without its leading characters of the class ws. */
  function StripStart(s: string, ws: char -> bool): string {
    if s != [] && ws(s[0]) then StripStart(s[1..], ws) else s
  }

  /** s without its trailing characters of the class ws. */
  function StripEnd(s: string, ws: char -> bool): string {
    if s != [] && ws(s[|s| - 1]) then StripEnd(s[..|s| - 1], ws) else s
  }

  /** StripStart removes a prefix of ws characters, and what it leaves does not start with one. */
  lemma {:induction false} StripStartShape(s: string, ws: char -> bool)
    ensures var r := StripStart(s, ws);
      && |r| <= |s| && r == s[|s| - |r|..]
      && (forall k :: 0 <= k < |s| - |r| ==> ws(s[k]))
      && (r == [] || !ws(r[0]))
  {
    if s != [] && ws(s[0]) {
      StripStartShape(s[1..], ws);
      var r := StripStart(s, ws);
      forall k | 1 <= k < |s| - |r|
        ensures ws(s[k])
      {
        assert s[k] == s[1..][k - 1];
      }
    }
  }

  /** StripEnd removes a suffix of ws characters, and what it leaves does not end with one. */
  lemma {:induction false} StripEndShape(s: string, ws: char -> bool)
    ensures var r := StripEnd(s, ws);
      && |r| <= |s| && r == s[..|r|]
      && (forall k :: |r| <= k < |s| ==> ws(s[k]))
      && (r == [] || !ws(r[|r| - 1]))
  {
    if s != [] && ws(s[|s| - 1]) {
      StripEndShape(s[..|s| - 1], ws);
    }
  }

  /** Trimming ws at both ends. */
  function Trim(s: string, ws: char -> bool): string {
    StripEnd(StripStart(s, ws), ws)
  }

  /** str.strip(): the result is no longer than s and neither starts nor ends with whitespace,
      and text that neither starts nor ends with whitespace is left as it is. */
  function Strip(s: string): (r: string)
    ensures |r| <= |s|
    ensures r == [] || (!IsSpace(r[0]) && !IsSpace(r[|r| - 1]))
    ensures |s| >= 1 && !IsSpace(s[0]) && !IsSpace(s[|s| - 1]) ==> r == s
  {
    StripTrims(s, IsSpace);
    TrimNone(s, IsSpace);
    Trim(s, IsSpace)
  }

  /** What trimming leaves is a stretch s[i..j] of s with only ws characters before and after
      it, and it neither starts nor ends with one. */
  lemma {:induction false} StripTrims(s: string, ws: char -> bool)
    ensures var r := Trim(s, ws);
      && (exists i, j :: 0 <= i <= j <= |s| && r == s[i..j]
            && (forall k :: 0 <= k < i ==> ws(s[k])) && (forall k :: j <= k < |s| ==> ws(s[k])))
      && (r == [] || (!ws(r[0]) && !ws(r[|r| - 1])))
  {
    var l := StripStart(s, ws);
    var r := StripEnd(l, ws);
    StripStartShape(s, ws);
    StripEndShape(l, ws);
    var i := |s| - |l|;
    assert r == s[i..i + |r|];
    forall k | i + |r| <= k < |s|
      ensures ws(s[k])
    {
      assert s[k] == l[k - i];
    }
  }

  predicate IsDigit(c: char) {
    '0' <= c <= '9'
  }

  /** str.isdigit(), for ASCII: at least one character, and all of them decimal digits. */
  predicate IsDigits(s: string) {
    |s| >= 1 && forall k :: 0 <= k < |s| ==> IsDigit(s[k])
  }

  /** The number a string of decimal digits denotes (int() of it). */
  function DecimalValue(s: string): nat
    requires forall k :: 0 <= k < |s| ==> IsDigit(s[k])
  {
    if s == [] then 0
    else
      assert IsDigit(s[|s| - 1]);
      10 * DecimalValue(s[..|s| - 1]) + (s[|s| - 1] as int - '0' as int)
  }

  /** str(n): the decimal digits of n, without leading zeros. */
  function Decimal(n: nat): (s: string)
    ensures IsDigits(s) && DecimalValue(s) == n
    ensures s[0] == '0' ==> n == 0
  {
    if n < 10 then [('0' as int + n) as char]
    else
      var d := Decimal(n / 10);
      assert (d + [('0' as int + n % 10) as char])[..|d|] == d;
      d + [('0' as int + n % 10) as char]
  }

  /** A digit string is its own strip. */
  lemma {:induction false} StripDigits(t: string)
    requires IsDigits(t)
    ensures Strip(t) == t
  {
    TrimDigits(t, IsSpace);
  }

  /** CPython's default for `sys.get_int_max_str_digits()`: int() of a decimal text with more
      digits than this, underscores not counted, raises ValueError (CPython 3.11, 3.10.7,
      3.9.14, 3.8.14, 3.7.14 and later releases). */
  const MaxStrDigits: nat := 4300

  /** An item that passes `isdigit()` but is too long for int(). */
  predicate TooLong(t: string) {
    IsDigits(t) && |t| > MaxStrDigits
  }

  /** The numbers of the parts that are digit strings once stripped:
      `[int(x.strip()) for x in parts if x.strip().isdigit()]`. None stands for the ValueError
      int() raises on a digit string longer than MaxStrDigits. */
  function Numbers(parts: seq<string>): (ns: Option<seq<nat>>)
    ensures ns.Some? ==> |ns.value| <= |parts|
  {
    if parts == [] then Some([])
    else
      var t := Strip(parts[0]);
      if TooLong(t) then None
      else match Numbers(parts[1..])
        case None => None
        case Some(rest) => if IsDigits(t) then Some([DecimalValue(t)] + rest) else Some(rest)
  }

  /** int() raises inside the comprehension exactly when some stripped item is a digit string
      that is too long. */
  lemma {:induction false} NumbersRaise(parts: seq<string>)
    ensures Numbers(parts).None? <==> exists k :: 0 <= k < |parts| && TooLong(Strip(parts[k]))
  {
    if parts != [] {
      NumbersRaise(parts[1..]);
      if exists k :: 0 <= k < |parts| - 1 && TooLong(Strip(parts[1..][k])) {
        var k :| 0 <= k < |parts| - 1 && TooLong(Strip(parts[1..][k]));
        assert parts[1..][k] == parts[k + 1];
      }
      if exists k :: 0 <= k < |parts| && TooLong(Strip(parts[k])) {
        var k :| 0 <= k < |parts| && TooLong(Strip(parts[k]));
        if k > 0 {
          assert parts[1..][k - 1] == parts[k];
        }
      }
    }
  }

  /** The counts and order fields: the comma-separated items that are digit strings once
      stripped, as numbers; every other item is dropped without an error. None: int() raised
      on an item of more than MaxStrDigits digits. */
  function ParseIndexList(s: string): (ns: Option<seq<nat>>)
    ensures ns.Some? ==> |ns.value| <= |Split(s)|
    ensures s == "" ==> ns == Some([])
  {
    assert s == "" ==> Split(s) == [""] && [""][1..] == [] && Strip("") == "" && !TooLong("");
    Numbers(Split(s))
  }

  function Decimals(xs: seq<nat>): seq<string> {
    seq(|xs|, k requires 0 <= k < |xs| => Decimal(xs[k]))
  }

  /** Every number of xs is written with at most MaxStrDigits digits. */
  predicate ShortDecimals(xs: seq<nat>) {
    forall k :: 0 <= k < |xs| ==> |Decimal(xs[k])| <= MaxStrDigits
  }

  /** A single digit string longer than MaxStrDigits makes the field raise. */
  lemma {:induction false} ParseIndexListTooLong(t: string)
    requires TooLong(t)
    ensures ParseIndexList(t) == None
  {
    assert ',' !in t by {
      assert forall k :: 0 <= k < |t| ==> t[k] != ',';
    }
    SplitJoin([t]);
    StripDigits(t);
  }

  lemma {:induction false} NumbersDecimals(xs: seq<nat>)
    ensures Numbers(Decimals(xs)) == if ShortDecimals(xs) then Some(xs) else None
  {
    if xs != [] {
      var ds := Decimals(xs);
      var d := Decimal(xs[0]);
      assert ds[0] == d;
      StripDigits(d);
      assert ds[1..] == Decimals(xs[1..]);
      NumbersDecimals(xs[1..]);
      assert ShortDecimals(xs) <==> |d| <= MaxStrDigits && ShortDecimals(xs[1..]) by {
        assert forall k :: 0 < k < |xs| ==> xs[k] == xs[1..][k - 1];
      }
      if ShortDecimals(xs) {
        assert Numbers(ds) == Some([DecimalValue(d)] + xs[1..]);
        assert xs == [xs[0]] + xs[1..];
      }
    }
  }

  /** A list of numbers written out with commas between them reads back as the same list, and
      int() raises when one of them has more than MaxStrDigits digits. */
  lemma {:induction false} ParseIndexListRoundTrip(xs: seq<nat>)
    ensures ParseIndexList(Join(Decimals(xs))) == if ShortDecimals(xs) then Some(xs) else None
  {
    if xs == [] {
      assert Strip("") == "";
    } else {
      forall k | 0 <= k < |xs| ensures ',' !in Decimals(xs)[k] {
        var d := Decimal(xs[k]);
        assert forall m :: 0 <= m < |d| ==> d[m] != ',';
      }
      SplitJoin(Decimals(xs));
      NumbersDecimals(xs);
    }
  }

  lemma {:induction false} JoinExample()
    ensures Join([" 2", " x", "-1", "3 "]) == " 2, x,-1,3 "
  {
    var parts := [" 2", " x", "-1", "3 "];
    assert parts[..2][..1] == [" 2"];
    assert Join(parts[..2]) == " 2, x";
    assert parts[..3][..2] == parts[..2];
    assert Join(parts[..3]) == " 2, x,-1";
    assert parts[..3] == parts[..|parts| - 1];
  }

  lemma {:induction false} StripExamples()
    ensures Strip(" 2") == "2" && Strip(" x") == "x" && Strip("-1") == "-1" && Strip("3 ") == "3"
  {
    assert StripStart(" 2", IsSpace) == "2" by { assert " 2"[1..] == "2"; }
    assert StripStart(" x", IsSpace) == "x" by { assert " x"[1..] == "x"; }
    assert StripEnd("3 ", IsSpace) == "3" by { assert "3 "[..1] == "3"; }
  }

  /** Example: spaces around an item are ignored, and an item that is not a digit string, a
      negative number included, is dropped. */
  lemma {:induction false} ParseIndexListExample()
    ensures ParseIndexList(" 2, x,-1,3 ") == Some([2, 3])
  {
    var parts := [" 2", " x", "-1", "3 "];
    JoinExample();
    SplitJoin(parts);
    NumbersExample();
  }

  lemma {:induction false} NumbersExample()
    ensures Numbers([" 2", " x", "-1", "3 "]) == Some([2, 3])
  {
    var parts := [" 2", " x", "-1", "3 "];
    StripExamples();
    assert parts[3..][1..] == [] && !TooLong("3") && [3] + [] == [3];
    assert DecimalValue("3") == 3 && Numbers(parts[3..]) == Some([3]);
    assert parts[2..][1..] == parts[3..] && Numbers(parts[2..]) == Some([3]);
    assert parts[1..][1..] == parts[2..] && Numbers(parts[1..]) == Some([3]);
    assert !TooLong("2") && !TooLong("x") && !TooLong("-1");
    assert DecimalValue("2") == 2 && [2] + [3] == [2, 3] && Numbers(parts) == Some([2, 3]);
  }

  // ---------------------------------------------------------------------------------------------
  // Density

  /** int() of a str: whitespace around it (IsIntSpace), an optional sign, then ASCII digits
      that single underscores may separate, at most MaxStrDigits of them. None stands for the
      ValueError int() raises otherwise. A text int() accepts holds a digit and no information
      separator, and a digit string longer than MaxStrDigits is refused. */
  function PyInt(s: string): (r: Option<int>)
    ensures r.Some? ==> exists k :: 0 <= k < |s| && IsDigit(s[k])
    ensures r.Some? ==> forall k :: 0 <= k < |s| ==> !IsSeparator(s[k])
    ensures TooLong(s) ==> r.None?
  {
    TooLongText(s);
    var t := Trim(s, IsIntSpace);
    var signed := |t| >= 1 && (t[0] == '-' || t[0] == '+');
    var body := if signed then t[1..] else t;
    if DigitGroups(body) && |WithoutUnderscores(body)| <= MaxStrDigits then
      PyIntText(s, t, body);
      var v: int := DecimalValue(WithoutUnderscores(body));
      Some(if signed && t[0] == '-' then -v else v)
    else None
  }

  /** A digit string is its own trimmed, unsigned, underscore-free body. */
  lemma {:induction false} TooLongText(s: string)
    ensures TooLong(s) ==> Trim(s, IsIntSpace) == s && s[0] != '-' && s[0] != '+'
    ensures TooLong(s) ==> WithoutUnderscores(s) == s
  {
    if TooLong(s) {
      TrimDigits(s, IsIntSpace);
      assert IsDigit(s[0]);
      assert forall k :: 0 <= k < |s| ==> s[k] != '_';
    }
  }

  /** The characters int() accepts are int() whitespace, a sign, digits and underscores, and
      the text holds a digit. */
  lemma {:induction false} PyIntText(s: string, t: string, body: string)
    requires t == Trim(s, IsIntSpace) && DigitGroups(body)
    requires body == t || (|t| >= 1 && (t[0] == '-' || t[0] == '+') && body == t[1..])
    ensures exists k :: 0 <= k < |s| && IsDigit(s[k])
    ensures forall k :: 0 <= k < |s| ==> !IsSeparator(s[k])
  {
    var i := TrimSpan(s, IsIntSpace);
    NumberChars(t, body);
    assert IsDigit(s[i + |t| - |body|]);
    forall k | 0 <= k < |s|
      ensures !IsSeparator(s[k])
    {
      if i <= k < i + |t| {
        assert NumberChar(t[k - i]);
      }
    }
  }

  /** Where the trimmed text lies in s: from offset i on, with only ws characters around it. */
  lemma {:induction false} TrimSpan(s: string, ws: char -> bool) returns (i: nat)
    ensures i + |Trim(s, ws)| <= |s|
    ensures forall k :: 0 <= k < |Trim(s, ws)| ==> Trim(s, ws)[k] == s[i + k]
    ensures forall k :: 0 <= k < |s| && !(i <= k < i + |Trim(s, ws)|) ==> ws(s[k])
  {
    var l := StripStart(s, ws);
    StripStartShape(s, ws);
    StripEndShape(l, ws);
    i := |s| - |l|;
    forall k | i + |Trim(s, ws)| <= k < |s|
      ensures ws(s[k])
    {
      assert s[k] == l[k - i];
    }
  }

  /** A sign and a digit group are made of NumberChar characters, and the group starts with a
      digit. */
  lemma {:induction false} NumberChars(t: string, body: string)
    requires DigitGroups(body)
    requires body == t || (|t| >= 1 && (t[0] == '-' || t[0] == '+') && body == t[1..])
    ensures |body| <= |t| && IsDigit(t[|t| - |body|])
    ensures forall k :: 0 <= k < |t| ==> NumberChar(t[k])
  {
    var off := |t| - |body|;
    forall k | 0 <= k < |t|
      ensures NumberChar(t[k])
    {
      if k >= off {
        assert t[k] == body[k - off];
      }
    }
  }

  /** A character int() may accept between the whitespace: a sign, a digit or an underscore. */
  predicate NumberChar(c: char) {
    IsDigit(c) || c == '_' || c == '-' || c == '+'
  }

  /** Digits, with single underscores allowed between two of them. */
  predicate DigitGroups(b: string) {
    && |b| >= 1 && IsDigit(b[0]) && IsDigit(b[|b| - 1])
    && (forall k :: 0 <= k < |b| ==> IsDigit(b[k]) || b[k] == '_')
    && (forall k :: 0 <= k < |b| - 1 ==> !(b[k] == '_' && b[k + 1] == '_'))
  }

  /** b with its underscores removed. */
  function WithoutUnderscores(b: string): (d: string)
    ensures (forall k :: 0 <= k < |b| ==> IsDigit(b[k]) || b[k] == '_') ==>
              forall k :: 0 <= k < |d| ==> IsDigit(d[k])
    ensures (forall k :: 0 <= k < |b| ==> b[k] != '_') ==> d == b
  {
    if b == [] then []
    else
      var rest := WithoutUnderscores(b[..|b| - 1]);
      assert b == b[..|b| - 1] + [b[|b| - 1]];
      if b[|b| - 1] == '_' then rest else rest + [b[|b| - 1]]
  }

  /** The density field: 127 when the form has none, otherwise int() of its text. */
  function ParseDensity(field: Option<string>): (r: Option<int>)
    ensures field.None? ==> r == Some(127)
    ensures field.Some? && r.Some? ==> exists k :: 0 <= k < |field.value| && IsDigit(field.value[k])
  {
    match field
    case None => Some(127)
    case Some(s) => PyInt(s)
  }

  /** Text that neither starts nor ends with a ws character is left as it is by trimming. */
  lemma {:induction false} TrimNone(t: string, ws: char -> bool)
    ensures |t| >= 1 && !ws(t[0]) && !ws(t[|t| - 1]) ==> Trim(t, ws) == t
  {
    if |t| >= 1 && !ws(t[0]) && !ws(t[|t| - 1]) {
      assert StripStart(t, ws) == t;
    }
  }

  /** A digit string is left as it is by trimming any class of characters that holds no digit. */
  lemma {:induction false} TrimDigits(t: string, ws: char -> bool)
    requires IsDigits(t) && forall c :: IsDigit(c) ==> !ws(c)
    ensures Trim(t, ws) == t
  {
    assert IsDigit(t[0]) && IsDigit(t[|t| - 1]);
    TrimNone(t, ws);
  }

  /** int() reads back str(n), unless str(n) has more than MaxStrDigits digits. */
  lemma {:induction false} PyIntDecimal(n: nat)
    ensures PyInt(Decimal(n)) == if |Decimal(n)| <= MaxStrDigits then Some(n) else None
  {
    TrimDigits(Decimal(n), IsIntSpace);
    PyIntDigits(Decimal(n), Decimal(n));
  }

  /** A text that int() whitespace around a digit string d reads as d's value, or raises when d
      is too long. */
  lemma {:induction false} PyIntDigits(s: string, d: string)
    requires IsDigits(d) && Trim(s, IsIntSpace) == d
    ensures PyInt(s) == if |d| <= MaxStrDigits then Some(DecimalValue(d) as int) else None
  {
    assert IsDigit(d[0]);
    DigitsGroups(d);
  }

  /** int() reads back "-" + str(n) as -n, unless str(n) has more than MaxStrDigits digits. */
  lemma {:induction false} PyIntNegative(n: nat)
    ensures PyInt("-" + Decimal(n)) == if |Decimal(n)| <= MaxStrDigits then Some(-(n as int)) else None
  {
    PyIntMinus(Decimal(n));
  }

  /** int() of "-" followed by a digit string. */
  lemma {:induction false} PyIntMinus(d: string)
    requires IsDigits(d)
    ensures PyInt("-" + d) == if |d| <= MaxStrDigits then Some(-(DecimalValue(d) as int)) else None
  {
    MinusTrim(d);
    DigitsGroups(d);
  }

  /** "-" + d is its own int() trim, and its sign is followed by d. */
  lemma {:induction false} MinusTrim(d: string)
    requires IsDigits(d)
    ensures Trim("-" + d, IsIntSpace) == "-" + d && ("-" + d)[0] == '-' && ("-" + d)[1..] == d
  {
    var m := "-" + d;
    assert m[0] == '-' && m[1..] == d && m[|m| - 1] == d[|d| - 1];
    assert IsDigit(d[|d| - 1]);
    TrimNone(m, IsIntSpace);
  }

  /** A digit string is a digit group without underscores. */
  lemma {:induction false} DigitsGroups(d: string)
    requires IsDigits(d)
    ensures DigitGroups(d) && WithoutUnderscores(d) == d
  {
    assert forall k :: 0 <= k < |d| ==> d[k] != '_';
  }

  lemma {:induction false} TrimPadded(d: string, ws: char -> bool)
    requires IsDigits(d) && ws(' ') && ws('\n') && forall c :: IsDigit(c) ==> !ws(c)
    ensures Trim(" " + d + "\n", ws) == d
  {
    var w := " " + d + "\n";
    assert StripStart(w, ws) == d + "\n" by {
      assert w[1..] == d + "\n";
      assert !ws(d[0]);
    }
    assert StripEnd(d + "\n", ws) == d by {
      assert (d + "\n")[..|d|] == d;
      assert !ws(d[|d| - 1]);
    }
  }

  /** int() ignores whitespace around the number; the digit limit still applies. */
  lemma {:induction false} PyIntPadded(n: nat)
    ensures PyInt(" " + Decimal(n) + "\n") == if |Decimal(n)| <= MaxStrDigits then Some(n) else None
  {
    TrimPadded(Decimal(n), IsIntSpace);
    PyIntDigits(" " + Decimal(n) + "\n", Decimal(n));
  }

  /** An information separator before the digits: str.strip() removes it, but int() raises. */
  lemma {:induction false} PyIntSeparator(n: nat)
    ensures Strip([0x1C as char] + Decimal(n)) == Decimal(n)
    ensures PyInt([0x1C as char] + Decimal(n)) == None
  {
    var d := Decimal(n);
    var w := [0x1C as char] + d;
    assert IsSeparator(w[0]);
    assert StripStart(w, IsSpace) == d by {
      assert w[1..] == d;
      assert !IsSpace(d[0]);
    }
    TrimDigits(d, IsSpace);
  }

  // ---------------------------------------------------------------------------------------------
  // The form and its errors

  /** The fields of a POST to `/`; None is a field the request does not carry. */
  datatype Form = Form(
    printerAddress: Option<string>,
    filenames: seq<string>,
    counts: Option<string>,
    order: Option<string>,
    density: Option<string>)

  datatype FormError = NoPrinter | InvalidFile(filename: string) | NoImages | CountMismatch | OrderOutOfRange

  /** The text index() shows for each error; a skipped file's message ends with its name as
      uploaded. */
  function Message(e: FormError): (m: string)
    ensures |m| >= 1
    ensures e.InvalidFile? ==> |m| == 22 + |e.filename| && m[22..] == e.filename
  {
    match e
    case NoPrinter => "Please select a printer before printing."
    case InvalidFile(f) => "Invalid file skipped: " + f
    case NoImages => "Please upload at least one image."
    case CountMismatch => "The number of counts must match the number of images."
    case OrderOutOfRange => "Order indices out of range."
  }

  /** One non-empty message per error, in the errors' order. */
  function Messages(errors: seq<FormError>): (r: seq<string>)
    ensures |r| == |errors|
    ensures forall k :: 0 <= k < |r| ==> |r[k]| >= 1
  {
    seq(|errors|, k requires 0 <= k < |errors| => Message(errors[k]))
  }

  /** Every upload has an allowed name. */
  predicate AllAllowed(files: seq<string>) {
    forall k :: 0 <= k < |files| ==> AllowedFile(files[k])
  }

  /** The uploads index() keeps, in upload order (their saved paths, in the source). */
  function Accepted(files: seq<string>): (paths: seq<string>)
    ensures |paths| <= |files|
    ensures forall k :: 0 <= k < |paths| ==> AllowedFile(paths[k])
    ensures AllAllowed(files) ==> paths == files
  {
    if files == [] then []
    else
      var rest := Accepted(files[..|files| - 1]);
      assert files == files[..|files| - 1] + [files[|files| - 1]];
      if AllowedFile(files[|files| - 1]) then rest + [files[|files| - 1]] else rest
  }

  /** One "Invalid file skipped" error per refused upload, in upload order. */
  function Rejected(files: seq<string>): (errors: seq<FormError>)
    ensures |Accepted(files)| + |errors| == |files|
    ensures errors == [] <==> AllAllowed(files)
    ensures forall k :: 0 <= k < |errors| ==> errors[k].InvalidFile? && !AllowedFile(errors[k].filename)
  {
    if files == [] then []
    else
      var init, last := files[..|files| - 1], files[|files| - 1];
      var rest := Rejected(init);
      assert files == init + [last];
      assert forall k :: 0 <= k < |init| ==> init[k] == files[k];
      if AllowedFile(last) then rest else rest + [InvalidFile(last)]
  }

  /** A file name is reported as skipped exactly when it was uploaded and is not allowed. */
  lemma {:induction false} RejectedNames(files: seq<string>, f: string)
    ensures InvalidFile(f) in Rejected(files) <==> f in files && !AllowedFile(f)
  {
    if files != [] {
      var init, last := files[..|files| - 1], files[|files| - 1];
      RejectedNames(init, f);
      assert files == init + [last];
      assert f in files <==> f in init || f == last;
    }
  }

  /** `not printer_address`: the field is absent or empty. */
  predicate NoPrinterGiven(printerAddress: Option<string>) {
    printerAddress.None? || printerAddress.value == ""
  }

  function PrinterErrors(printerAddress: Option<string>): seq<FormError> {
    if NoPrinterGiven(printerAddress) then [NoPrinter] else []
  }

  /** Every index names one of n images. */
  predicate IndicesBelow(order: seq<nat>, n: nat) {
    forall k :: 0 <= k < |order| ==> order[k] < n
  }

  /** The three rules on the kept uploads, the counts and the order, in the order index()
      checks them. */
  function RuleErrors(n: nat, counts: seq<nat>, order: seq<nat>): (r: seq<FormError>)
    ensures |r| <= 3 && NoPrinter !in r && forall k :: 0 <= k < |r| ==> !r[k].InvalidFile?
    ensures NoImages in r <==> n < 1
    ensures CountMismatch in r <==> n != |counts|
    ensures OrderOutOfRange in r <==> !IndicesBelow(order, n)
  {
    (if n < 1 then [NoImages] else [])
    + (if n != |counts| then [CountMismatch] else [])
    + (if !IndicesBelow(order, n) then [OrderOutOfRange] else [])
  }

  /** The errors index() collects, in the order it appends them. */
  function Errors(printerAddress: Option<string>, files: seq<string>, counts: seq<nat>, order: seq<nat>): (r: seq<FormError>)
    ensures NoPrinter in r <==> NoPrinterGiven(printerAddress)
    ensures NoImages in r <==> |Accepted(files)| == 0
    ensures CountMismatch in r <==> |Accepted(files)| != |counts|
    ensures OrderOutOfRange in r <==> !IndicesBelow(order, |Accepted(files)|)
    ensures forall f :: InvalidFile(f) in r <==> f in files && !AllowedFile(f)
  {
    ErrorsMembers(printerAddress, files, counts, order);
    ErrorsFiles(printerAddress, files, counts, order);
    PrinterErrors(printerAddress) + Rejected(files) + RuleErrors(|Accepted(files)|, counts, order)
  }

  /** Which rule errors a form collects: the file errors are all InvalidFile, so each rule error
      comes from its own test. */
  lemma {:induction false} ErrorsMembers(printerAddress: Option<string>, files: seq<string>, counts: seq<nat>, order: seq<nat>)
    ensures var r := PrinterErrors(printerAddress) + Rejected(files) + RuleErrors(|Accepted(files)|, counts, order);
      && (NoPrinter in r <==> NoPrinterGiven(printerAddress))
      && (NoImages in r <==> |Accepted(files)| == 0)
      && (CountMismatch in r <==> |Accepted(files)| != |counts|)
      && (OrderOutOfRange in r <==> !IndicesBelow(order, |Accepted(files)|))
  {
    var j := Rejected(files);
    NotSkipped(NoPrinter, j);
    NotSkipped(NoImages, j);
    NotSkipped(CountMismatch, j);
    NotSkipped(OrderOutOfRange, j);
  }

  /** The files a form reports as skipped: exactly the uploads that are not allowed. */
  lemma {:induction false} ErrorsFiles(printerAddress: Option<string>, files: seq<string>, counts: seq<nat>, order: seq<nat>)
    ensures var r := PrinterErrors(printerAddress) + Rejected(files) + RuleErrors(|Accepted(files)|, counts, order);
      forall f :: InvalidFile(f) in r <==> f in files && !AllowedFile(f)
  {
    var p, j, q := PrinterErrors(printerAddress), Rejected(files), RuleErrors(|Accepted(files)|, counts, order);
    forall f ensures InvalidFile(f) in p + j + q <==> f in files && !AllowedFile(f) {
      RejectedNames(files, f);
    }
  }

  /** An error other than InvalidFile is never among the skipped files. */
  lemma {:induction false} NotSkipped(e: FormError, errors: seq<FormError>)
    requires !e.InvalidFile? && forall k :: 0 <= k < |errors| ==> errors[k].InvalidFile?
    ensures e !in errors
  {
  }

  /** A form has no errors exactly when a printer is given, at least one file is uploaded and
      every upload is allowed, there is one count per upload and every order index names an
      upload. */
  lemma {:induction false} ErrorsEmptyIff(printerAddress: Option<string>, files: seq<string>, counts: seq<nat>, order: seq<nat>)
    ensures Errors(printerAddress, files, counts, order) == [] <==>
              && !NoPrinterGiven(printerAddress)
              && |files| >= 1 && AllAllowed(files)
              && |counts| == |files|
              && IndicesBelow(order, |files|)
  {
    var errors := Errors(printerAddress, files, counts, order);
    if errors == [] {
      assert PrinterErrors(printerAddress) == [] && Rejected(files) == [];
    }
  }

  /** What the validation part of index() comes to for a POST. */
  datatype Validation =
    | MissingField     // `request.form['counts']` or `['order']` is absent: Flask answers 400
    | IntRaised        // an `int()` call on the counts, order or density raised ValueError: Flask answers 500
    | Validated(errors: seq<FormError>, paths: seq<string>, counts: seq<nat>, order: seq<nat>, density: int)

  /** Every field index() reads is present and int() accepts what it is given in each. */
  predicate FieldsRead(form: Form) {
    && form.counts.Some? && ParseIndexList(form.counts.value).Some?
    && form.order.Some? && ParseIndexList(form.order.value).Some?
    && ParseDensity(form.density).Some?
  }

  /** What index() makes of a POST, in the order it reads the form: the counts field, then the
      order field, then the density, each of which may end the request. */
  function Validate(form: Form): (v: Validation)
    ensures v.MissingField? <==> form.counts.None? || (ParseIndexList(form.counts.value).Some? && form.order.None?)
    ensures v.Validated? <==> FieldsRead(form)
    ensures v.Validated? ==> |v.paths| <= |form.filenames| && AllAllowed(v.paths)
    ensures v.Validated? && v.errors == [] ==>
              && !NoPrinterGiven(form.printerAddress)
              && v.paths == form.filenames && |v.paths| >= 1
              && |v.counts| == |v.paths| && IndicesBelow(v.order, |v.paths|)
  {
    if form.counts.None? then MissingField
    else match ParseIndexList(form.counts.value)
      case None => IntRaised
      case Some(counts) =>
        if form.order.None? then MissingField
        else match ParseIndexList(form.order.value)
          case None => IntRaised
          case Some(order) =>
            match ParseDensity(form.density)
            case None => IntRaised
            case Some(density) =>
              ErrorsEmptyIff(form.printerAddress, form.filenames, counts, order);
              Validated(Errors(form.printerAddress, form.filenames, counts, order),
                        Accepted(form.filenames), counts, order, density)
  }

  /** A field holding one digit string of more than MaxStrDigits digits ends the request with
      a 500, once the fields read before it are fine. */
  lemma {:induction false} TooLongRaises(form: Form)
    ensures form.counts.Some? && TooLong(form.counts.value) ==> Validate(form) == IntRaised
    ensures (&& form.counts.Some? && ParseIndexList(form.counts.value).Some?
             && form.order.Some? && TooLong(form.order.value)) ==> Validate(form) == IntRaised
    ensures (&& form.counts.Some? && ParseIndexList(form.counts.value).Some?
             && form.order.Some? && ParseIndexList(form.order.value).Some?
             && form.density.Some? && TooLong(form.density.value)) ==> Validate(form) == IntRaised
  {
    if form.counts.Some? && TooLong(form.counts.value) {
      ParseIndexListTooLong(form.counts.value);
    }
    if form.order.Some? && TooLong(form.order.value) {
      ParseIndexListTooLong(form.order.value);
    }
  }

  /** Accepted and Rejected on one more upload. */
  lemma {:induction false} UploadStep(files: seq<string>, i: nat)
    requires i < |files|
    ensures Accepted(files[..i + 1]) == if AllowedFile(files[i]) then Accepted(files[..i]) + [files[i]] else Accepted(files[..i])
    ensures Rejected(files[..i + 1]) == if AllowedFile(files[i]) then Rejected(files[..i]) else Rejected(files[..i]) + [InvalidFile(files[i])]
  {
    assert files[..i + 1][..i] == files[..i];
  }

  /** One pass of the loop over the uploads: files[i] is kept when allowed and reported
      otherwise. */
  method CheckUpload(files: seq<string>, i: nat, paths: seq<string>, skipped: seq<FormError>)
    returns (paths': seq<string>, skipped': seq<FormError>)
    requires i < |files| && paths == Accepted(files[..i]) && skipped == Rejected(files[..i])
    ensures paths' == Accepted(files[..i + 1]) && skipped' == Rejected(files[..i + 1])
  {
    UploadStep(files, i);
    if AllowedFile(files[i]) {
      paths', skipped' := paths + [files[i]], skipped;
    } else {
      paths', skipped' := paths, skipped + [InvalidFile(files[i])];
    }
  }

  /** The loop of index() over the uploads: an allowed file is kept, any other adds an
      "Invalid file skipped" error to those collected so far. */
  method CheckUploads(files: seq<string>, errorsSoFar: seq<FormError>) returns (paths: seq<string>, errors: seq<FormError>)
    ensures paths == Accepted(files)
    ensures errors == errorsSoFar + Rejected(files)
  {
    var skipped: seq<FormError> := [];
    paths := [];
    var i := 0;
    while i < |files|
      invariant 0 <= i <= |files|
      invariant paths == Accepted(files[..i])
      invariant skipped == Rejected(files[..i])
    {
      paths, skipped := CheckUpload(files, i, paths, skipped);
      i := i + 1;
    }
    assert files[..i] == files;
    errors := errorsSoFar + skipped;
  }

  /** The three rules of index(), each adding its error to those collected so far. */
  method CheckRules(n: nat, counts: seq<nat>, order: seq<nat>, errorsSoFar: seq<FormError>) returns (errors: seq<FormError>)
    ensures errors == errorsSoFar + RuleErrors(n, counts, order)
  {
    errors := errorsSoFar;
    if n < 1 {
      errors := errors + [NoImages];
    }
    if n != |counts| {
      errors := errors + [CountMismatch];
    }
    if !IndicesBelow(order, n) {
      errors := errors + [OrderOutOfRange];
    }
  }

  /** The validation steps of index(): the printer test, the uploads, the counts, order and
      density fields, and the three rules on them. */
  method CheckForm(form: Form) returns (v: Validation)
    ensures v == Validate(form)
  {
    var errors: seq<FormError> := [];
    if form.printerAddress.None? || form.printerAddress.value == "" {
      errors := errors + [NoPrinter];
    }
    assert errors == PrinterErrors(form.printerAddress);
    var paths;
    paths, errors := CheckUploads(form.filenames, errors);
    if form.counts.None? {
      return MissingField;
    }
    var counts := ParseIndexList(form.counts.value);
    if counts.None? {
      return IntRaised;
    }
    if form.order.None? {
      return MissingField;
    }
    var order := ParseIndexList(form.order.value);
    if order.None? {
      return IntRaised;
    }
    var density := ParseDensity(form.density);
    if density.None? {
      return IntRaised;
    }
    errors := CheckRules(|paths|, counts.value, order.value, errors);
    ValidatedForm(form, counts.value, order.value, density.value);
    v := Validated(errors, paths, counts.value, order.value, density.value);
  }

  lemma {:induction false} ValidatedForm(form: Form, counts: seq<nat>, order: seq<nat>, density: int)
    requires form.counts.Some? && ParseIndexList(form.counts.value) == Some(counts)
    requires form.order.Some? && ParseIndexList(form.order.value) == Some(order)
    requires ParseDensity(form.density) == Some(density)
    ensures Validate(form) == Validated(Errors(form.printerAddress, form.filenames, counts, order),
                                        Accepted(form.filenames), counts, order, density)
  {
  }

  // ---------------------------------------------------------------------------------------------
  // The handler's outcome

  datatype RequestMethod = Get | Post

  /** The job index() hands on: to the queue in backend/app.py, to the printer in app.py. */
  datatype Job = Job(printerAddress: string, images: seq<string>, counts: seq<nat>, order: seq<nat>, density: int)

  /** The rendered page with its error list and success text, or the HTTP error Flask sends
      when the handler raises. */
  datatype Response = BadRequest | InternalError | Page(errorMessages: seq<string>, successMessage: Option<string>)

  /** The job a request leads to, if any. */
  function Dispatch(m: RequestMethod, form: Form): (r: Option<Job>)
    ensures m == Get ==> r.None?
    ensures r.Some? ==>
              && r.value.printerAddress != "" && r.value.images == form.filenames
              && |r.value.images| >= 1 && AllAllowed(r.value.images)
              && |r.value.counts| == |r.value.images| && IndicesBelow(r.value.order, |r.value.images|)
  {
    if m == Get then None
    else match Validate(form)
      case Validated(errors, paths, counts, order, density) =>
        if errors == [] && form.printerAddress.Some? then Some(Job(form.printerAddress.value, paths, counts, order, density))
        else None
      case _ => None
  }

  /** The answer to a request when handing the job on does not raise; `success` is the
      server's success text. */
  function Reply(m: RequestMethod, form: Form, success: string): (r: Response)
    ensures m == Get ==> r == Page([], None)
    ensures r == BadRequest <==> m == Post && (form.counts.None? || (ParseIndexList(form.counts.value).Some? && form.order.None?))
    ensures r == InternalError <==> m == Post && Validate(form).IntRaised?
    ensures r.Page? && r.successMessage.Some? ==>
              r.errorMessages == [] && r.successMessage.value == success && Dispatch(m, form).Some?
    ensures m == Post && r.Page? ==> (r.successMessage.Some? <==> r.errorMessages == [])
  {
    if m == Get then Page([], None)
    else match Validate(form)
      case MissingField => assert m == Post; BadRequest
      case IntRaised => assert m == Post; InternalError
      case Validated(errors, _, _, _, _) =>
        if errors == [] then Page([], Some(success)) else Page(Messages(errors), None)
  }

  /** A POST leads to a job exactly when every field is present and int() accepts it, a printer
      is given, every upload is allowed and there is at least one, the counts list has one entry
      per upload and the order indices name uploads; the job then carries all the uploads, the
      printer address, the parsed counts and order lists and the density as given. */
  lemma {:induction false} DispatchIff(form: Form)
    ensures Dispatch(Post, form).Some? <==>
              && FieldsRead(form)
              && !NoPrinterGiven(form.printerAddress)
              && |form.filenames| >= 1 && AllAllowed(form.filenames)
              && |ParseIndexList(form.counts.value).value| == |form.filenames|
              && IndicesBelow(ParseIndexList(form.order.value).value, |form.filenames|)
    ensures Dispatch(Post, form).Some? ==>
              var job := Dispatch(Post, form).value;
              && job.printerAddress == form.printerAddress.value
              && job.images == form.filenames
              && job.counts == ParseIndexList(form.counts.value).value
              && job.order == ParseIndexList(form.order.value).value
              && job.density == ParseDensity(form.density).value
  {
    if FieldsRead(form) {
      var counts, order := ParseIndexList(form.counts.value).value, ParseIndexList(form.order.value).value;
      ValidatedForm(form, counts, order, ParseDensity(form.density).value);
      ErrorsEmptyIff(form.printerAddress, form.filenames, counts, order);
    } else {
      assert !Validate(form).Validated?;
    }
  }

  /** The page reports success exactly when a job is handed on, and lists the errors otherwise. */
  lemma {:induction false} ReplySuccessIff(form: Form, success: string)
    ensures Reply(Post, form, success) == Page([], Some(success)) <==> Dispatch(Post, form).Some?
  {
    match Validate(form)
    case Validated(errors, _, _, _, _) =>
      if errors != [] {
        assert |Messages(errors)| > 0;
      } else {
        DispatchIff(form);
      }
    case _ =>
  }

  /** A job that is handed on can be printed without an index error: with one bitmap per
      upload, every order index names an image and its count. */
  lemma {:induction false} DispatchedJobPrintable(form: Form, images: seq<Printer.Bitmap>)
    requires Dispatch(Post, form).Some? && |images| == |Dispatch(Post, form).value.images|
    ensures Printer.IndicesOk(images, Dispatch(Post, form).value.counts, Dispatch(Post, form).value.order)
  {
    DispatchIff(form);
  }
}
