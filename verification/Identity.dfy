/** Parsing a payout mode out of a mining `user_identity`. */
module Identity {
  import opened Payout
  import opened Prelude

  datatype Error =
    | NoPayoutMode(identity: string)
    | InvalidUserIdentity(identity: string)
    | InvalidPayoutAddress(address: string)
    | InvalidDonationPercentage(percentage: string)

  datatype Result = Ok(mode: PayoutMode) | Err(error: Error)

  /** Converts an address into its script, or rejects it. */
  type Addresses = string -> Option<Script>

  ghost predicate RejectsSlashes(scripts: Addresses) {
    forall address :: '/' in address ==> scripts(address).None?
  }

  // -- Splitting --------------------------------------------------------------------------------

  /** The text before the first separator, or all of it. */
  function Head(s: string, sep: char): (h: string)
    ensures sep !in h && h <= s && (|h| < |s| ==> s[|h|] == sep)
  {
    if s == [] || s[0] == sep then [] else [s[0]] + Head(s[1..], sep)
  }

  function Split(s: string, sep: char): (parts: seq<string>)
    ensures |parts| >= 1
    decreases |s|
  {
    var h := Head(s, sep);
    if |h| == |s| then [h] else [h] + Split(s[|h| + 1..], sep)
  }

  function AddressPart(identity: string): string {
    Head(identity, '.')
  }

  // -- Numbers ----------------------------------------------------------------------------------

  predicate IsDigit(c: char) {
    '0' <= c <= '9'
  }

  function Digit(c: char): nat
    requires IsDigit(c)
  {
    c as int - '0' as int
  }

  predicate AllDigits(s: string) {
    forall i :: 0 <= i < |s| ==> IsDigit(s[i])
  }

  function Number(digits: string): nat
    requires AllDigits(digits)
  {
    if digits == [] then 0
    else 10 * Number(digits[..|digits| - 1]) + Digit(digits[|digits| - 1])
  }

  /** Rust's `parse::<u8>`: an optional plus sign, at least one digit, leading zeros allowed. */
  function ParseU8(s: string): Option<U8> {
    var digits := if |s| > 1 && s[0] == '+' then s[1..] else s;
    if digits == [] || !AllDigits(digits) then None
    else if Number(digits) > 255 then None
    else Some(Number(digits))
  }

  function Decimal(n: nat): (s: string)
    ensures s != [] && AllDigits(s)
  {
    if n < 10 then [('0' as int + n) as char] else Decimal(n / 10) + [('0' as int + n % 10) as char]
  }

  lemma {:induction false} NumberOfDecimal(n: nat)
    ensures Number(Decimal(n)) == n
  {
    if n >= 10 {
      NumberOfDecimal(n / 10);
      var s := Decimal(n);
      assert s[..|s| - 1] == Decimal(n / 10);
    } else {
      assert Decimal(n)[..0] == [];
    }
  }

  lemma ParsesDecimal(n: U8)
    ensures ParseU8(Decimal(n)) == Some(n)
  {
    NumberOfDecimal(n);
    assert IsDigit(Decimal(n)[0]);
  }

  function ZeroDigits(k: nat): (z: string)
    ensures |z| == k
  {
    seq(k, _ => '0')
  }

  lemma {:induction false} LeadingZeros(k: nat, digits: string)
    requires AllDigits(digits)
    ensures AllDigits(ZeroDigits(k) + digits) && Number(ZeroDigits(k) + digits) == Number(digits)
  {
    var all := ZeroDigits(k) + digits;
    if digits != [] {
      LeadingZeros(k, digits[..|digits| - 1]);
      assert all[..|all| - 1] == ZeroDigits(k) + digits[..|digits| - 1];
    } else if k > 0 {
      LeadingZeros(k - 1, []);
      assert all[..k - 1] == ZeroDigits(k - 1) + [];
    }
  }

  /** A text of digits is the decimal form of its number behind some zeros. */
  lemma {:induction false} DigitsForm(digits: string) returns (k: nat)
    requires digits != [] && AllDigits(digits)
    ensures digits == ZeroDigits(k) + Decimal(Number(digits))
  {
    var n, last := Number(digits), |digits| - 1;
    if last == 0 {
      k := 0;
      assert digits[..0] == [];
    } else {
      var rest := digits[..last];
      var m := Number(rest);
      var j := DigitsForm(rest);
      assert n == 10 * m + Digit(digits[last]) && n / 10 == m && n % 10 == Digit(digits[last]);
      if m > 0 {
        k := j;
        assert Decimal(n) == Decimal(m) + [digits[last]];
      } else {
        k := j + 1;
        assert Decimal(m) == "0" && ZeroDigits(j) + "0" == ZeroDigits(k);
        assert Decimal(n) == [digits[last]];
      }
      assert digits == rest + [digits[last]];
    }
  }

  /** The decimal form of a number behind `k` zeros, with or without a plus sign. */
  predicate IsTextOf(text: string, n: nat, k: nat) {
    text == ZeroDigits(k) + Decimal(n) || text == "+" + (ZeroDigits(k) + Decimal(n))
  }

  lemma ParsedText(text: string, n: U8) returns (k: nat)
    requires ParseU8(text) == Some(n)
    ensures IsTextOf(text, n, k)
  {
    hide Number, Decimal, ZeroDigits;
    var digits := if |text| > 1 && text[0] == '+' then text[1..] else text;
    k := DigitsForm(digits);
    assert digits != text ==> text == "+" + digits;
  }

  lemma FormIsDigits(n: nat, k: nat)
    ensures var form := ZeroDigits(k) + Decimal(n);
            form != [] && AllDigits(form) && Number(form) == n && IsDigit(form[0])
  {
    hide Number, Decimal;
    NumberOfDecimal(n);
    LeadingZeros(k, Decimal(n));
  }

  lemma TextParses(text: string, n: U8, k: nat)
    requires IsTextOf(text, n, k)
    ensures ParseU8(text) == Some(n)
  {
    hide Number, Decimal, ZeroDigits, AllDigits;
    var form := ZeroDigits(k) + Decimal(n);
    FormIsDigits(n, k);
    if text != form {
      assert text == "+" + form && text[0] == '+' && text[1..] == form;
    }
  }

  /** The texts of a number: its decimal form behind any zeros, with or without a plus sign. */
  lemma ParseU8Exactly(text: string, n: U8)
    ensures ParseU8(text) == Some(n) <==> exists k: nat :: IsTextOf(text, n, k)
  {
    hide *;
    if ParseU8(text) == Some(n) {
      var k := ParsedText(text, n);
    }
    if k: nat :| IsTextOf(text, n, k) {
      TextParses(text, n, k);
    }
  }

  // -- The parser -------------------------------------------------------------------------------

  function Parse(scripts: Addresses, identity: string): Result {
    if identity == "" then Err(NoPayoutMode(identity))
    else
      var address := AddressPart(identity);
      if scripts(address).Some? then Ok(LegacySolo(address, scripts(address).value))
      else ParseParts(scripts, identity, Split(identity, '/'))
  }

  function ParseParts(scripts: Addresses, identity: string, parts: seq<string>): Result
    requires |parts| >= 1
  {
    if |parts| == 1 || parts[0] != "sri" then Err(NoPayoutMode(identity))
    else if parts[1] == "solo" && |parts| > 2 then ParseSolo(scripts, parts[2])
    else if parts[1] == "donate" && |parts| <= 3 then Ok(FullDonation)
    else if parts[1] == "donate" then ParseDonate(scripts, parts[2], parts[3])
    else Err(InvalidUserIdentity(identity))
  }

  function ParseSolo(scripts: Addresses, address: string): Result {
    match scripts(address)
    case Some(script) => Ok(Solo(address, script))
    case None => Err(InvalidPayoutAddress(address))
  }

  function ParseDonate(scripts: Addresses, percentage: string, address: string): Result {
    match ParseU8(percentage)
    case None => Err(InvalidDonationPercentage(percentage))
    case Some(n) =>
      if !(1 <= n < 100) then Err(InvalidDonationPercentage(Decimal(n)))
      else match scripts(address)
           case Some(script) => Ok(Donate(n, address, script))
           case None => Err(InvalidPayoutAddress(address))
  }

  // -- Shapes of an identity --------------------------------------------------------------------

  /** `s` is `base`, or `base` followed by a separator and anything at all. */
  predicate Extends(s: string, base: string, sep: char) {
    base <= s && (|base| < |s| ==> s[|base|] == sep)
  }

  lemma {:induction false} HeadIsUnique(s: string, h: string, sep: char)
    requires sep !in h
    ensures Extends(s, h, sep) <==> Head(s, sep) == h
  {
    if h != [] && h <= s {
      assert s[0] == h[0] && h[0] in h;
      assert h[1..] <= s[1..];
      HeadIsUnique(s[1..], h[1..], sep);
      assert h == [h[0]] + h[1..];
    }
  }

  /** What follows the first separator. */
  function Tail(s: string): string
    requires Head(s, '/') != s
  {
    s[|Head(s, '/')| + 1..]
  }

  lemma HeadOfJoined(first: string, rest: string)
    requires '/' !in first
    ensures Head(first + "/" + rest, '/') == first != first + "/" + rest
    ensures Tail(first + "/" + rest) == rest
    ensures Split(first + "/" + rest, '/') == [first] + Split(rest, '/')
  {
    HeadIsUnique(first + "/" + rest, first, '/');
  }

  lemma CutAtHead(s: string)
    ensures Head(s, '/') == s <==> '/' !in s
    ensures Head(s, '/') != s ==> s == Head(s, '/') + "/" + Tail(s)
  {
    hide Head;
    var h := Head(s, '/');
    if h != s {
      assert s[|h|] == '/';
      assert h == s[..|h|];
    }
  }

  lemma SplitAgain(s: string)
    ensures Head(s, '/') == s ==> '/' !in s && Split(s, '/') == [s]
    ensures Head(s, '/') != s ==> s == Head(s, '/') + "/" + Tail(s) && '/' in s
                                  && Split(s, '/') == [Head(s, '/')] + Split(Tail(s), '/')
  {
    hide Head;
    CutAtHead(s);
    if |Head(s, '/')| == |s| {
      assert Head(s, '/') == s;
    }
  }

  // -- The documented formats -------------------------------------------------------------------

  lemma SriIsNoAddress(scripts: Addresses, rest: string)
    requires RejectsSlashes(scripts)
    ensures scripts(AddressPart("sri/" + rest)).None?
  {
    hide Head;
    var identity := "sri/" + rest;
    var address := AddressPart(identity);
    assert |address| >= 4;
    assert address[3] == identity[3] == '/';
  }

  lemma ParseGoesOn(scripts: Addresses, identity: string)
    requires identity != "" && scripts(AddressPart(identity)).None?
    ensures Parse(scripts, identity) == ParseParts(scripts, identity, Split(identity, '/'))
  {
    hide Split, AddressPart, ParseParts;
  }

  lemma Regroup(a: string, b: string, c: string)
    ensures (a + b) + c == a + (b + c)
  {
  }

  lemma SriSplitOnce(rest: string)
    ensures Split("sri/" + rest, '/') == ["sri"] + Split(rest, '/')
  {
    hide *;
    HeadOfJoined("sri", rest);
    assert "sri" + "/" == "sri/";
  }

  lemma TwoInFront(second: string, parts: seq<string>)
    ensures ["sri"] + ([second] + parts) == ["sri", second] + parts
  {
  }

  /** The first two parts of an identity whose second part is given. */
  lemma SriSplit(scripts: Addresses, lead: string, second: string, rest: string)
    requires RejectsSlashes(scripts) && '/' !in second && lead == "sri/" + (second + "/")
    ensures Split(lead + rest, '/') == ["sri", second] + Split(rest, '/')
    ensures Parse(scripts, lead + rest) == ParseParts(scripts, lead + rest, ["sri", second] + Split(rest, '/'))
  {
    hide *;
    var tail := second + "/" + rest;
    assert lead + rest == "sri/" + tail by {
      Regroup("sri/", second + "/", rest);
    }
    SriSplitOnce(tail);
    HeadOfJoined(second, rest);
    TwoInFront(second, Split(rest, '/'));
    SriIsNoAddress(scripts, tail);
    ParseGoesOn(scripts, lead + rest);
  }

  lemma SoloParts(scripts: Addresses, identity: string, rest: string)
    ensures ParseParts(scripts, identity, ["sri", "solo"] + Split(rest, '/')) == ParseSolo(scripts, Head(rest, '/'))
  {
    hide Head, Split, Tail, ParseSolo, ParseDonate;
    SplitAgain(rest);
    var parts := ["sri", "solo"] + Split(rest, '/');
    assert parts[0] == "sri" && parts[1] == "solo" && parts[2] == Head(rest, '/');
  }

  lemma DonateParts(scripts: Addresses, identity: string, rest: string)
    ensures ParseParts(scripts, identity, ["sri", "donate"] + Split(rest, '/')) ==
            if Head(rest, '/') == rest then Ok(FullDonation)
            else ParseDonate(scripts, Head(rest, '/'), Head(Tail(rest), '/'))
  {
    hide Head, Split, Tail, ParseDonate, ParseSolo;
    SplitAgain(rest);
    var parts := ["sri", "donate"] + Split(rest, '/');
    assert parts[0] == "sri" && parts[1] == "donate" && "donate"[0] != "solo"[0];
    if Head(rest, '/') == rest {
      assert |parts| == 3;
    } else {
      SplitAgain(Tail(rest));
      assert parts[2] == Head(rest, '/') && parts[3] == Head(Tail(rest), '/');
    }
  }

  /** `sri/solo/`: what stands before the next slash is the address, and nothing after it matters. */
  lemma SoloForm(scripts: Addresses, rest: string)
    requires RejectsSlashes(scripts)
    ensures Parse(scripts, "sri/solo/" + rest) == ParseSolo(scripts, Head(rest, '/'))
  {
    hide *;
    assert "sri/solo/" == "sri/" + ("solo" + "/");
    SriSplit(scripts, "sri/solo/", "solo", rest);
    SoloParts(scripts, "sri/solo/" + rest, rest);
  }

  /** `sri/donate/`: everything without another slash is a worker name, otherwise a percentage comes first. */
  lemma DonateForm(scripts: Addresses, rest: string)
    requires RejectsSlashes(scripts)
    ensures Parse(scripts, "sri/donate/" + rest) ==
            if Head(rest, '/') == rest then Ok(FullDonation)
            else ParseDonate(scripts, Head(rest, '/'), Head(Tail(rest), '/'))
  {
    hide *;
    assert "sri/donate/" == "sri/" + ("donate" + "/");
    SriSplit(scripts, "sri/donate/", "donate", rest);
    DonateParts(scripts, "sri/donate/" + rest, rest);
  }

  lemma NoSriPrefix(identity: string)
    requires !("sri/" <= identity)
    ensures |Split(identity, '/')| == 1 || Split(identity, '/')[0] != "sri"
  {
    hide Head, Split, Tail;
    SplitAgain(identity);
    assert "sri" + "/" == "sri/";
  }

  lemma OtherParts(scripts: Addresses, identity: string, rest: string)
    requires !("solo/" <= rest) && !("donate/" <= rest)
    ensures ParseParts(scripts, identity, ["sri"] + Split(rest, '/'))
            == if rest == "donate" then Ok(FullDonation) else Err(InvalidUserIdentity(identity))
  {
    hide Head, Split, Tail, ParseSolo, ParseDonate;
    SplitAgain(rest);
    var parts := ["sri"] + Split(rest, '/');
    assert parts[0] == "sri" && parts[1] == Split(rest, '/')[0];
    if Head(rest, '/') == rest {
      assert |parts| == 2;
    } else {
      assert "solo" + "/" == "solo/" && "donate" + "/" == "donate/";
      assert Head(rest, '/') + "/" <= rest;
      assert parts[1] != "solo" && parts[1] != "donate" && '/' !in "donate";
    }
  }

  lemma UnderSri(scripts: Addresses, rest: string)
    requires RejectsSlashes(scripts) && !("solo/" <= rest) && !("donate/" <= rest)
    ensures var identity := "sri/" + rest;
            Parse(scripts, identity)
            == if rest == "donate" then Ok(FullDonation) else Err(InvalidUserIdentity(identity))
  {
    hide *;
    SriIsNoAddress(scripts, rest);
    ParseGoesOn(scripts, "sri/" + rest);
    SriSplitOnce(rest);
    OtherParts(scripts, "sri/" + rest, rest);
  }

  /** Every other identity: an address, the bare `sri/donate`, or no payout mode at all. */
  lemma OtherForms(scripts: Addresses, identity: string)
    requires RejectsSlashes(scripts) && !("sri/solo/" <= identity) && !("sri/donate/" <= identity)
    ensures Parse(scripts, identity) ==
            if identity == "" then Err(NoPayoutMode(identity))
            else if scripts(AddressPart(identity)).Some?
            then Ok(LegacySolo(AddressPart(identity), scripts(AddressPart(identity)).value))
            else if identity == "sri/donate" then Ok(FullDonation)
            else if "sri/" <= identity then Err(InvalidUserIdentity(identity))
            else Err(NoPayoutMode(identity))
  {
    hide *;
    if "sri/" <= identity {
      OtherSriForms(scripts, identity);
    } else {
      NoSriForm(scripts, identity);
    }
  }

  lemma OtherSriForms(scripts: Addresses, identity: string)
    requires RejectsSlashes(scripts) && "sri/" <= identity
    requires !("sri/solo/" <= identity) && !("sri/donate/" <= identity)
    ensures identity != "" && scripts(AddressPart(identity)).None?
    ensures Parse(scripts, identity) ==
            if identity == "sri/donate" then Ok(FullDonation) else Err(InvalidUserIdentity(identity))
  {
    hide *;
    var rest := identity[4..];
    assert identity == "sri/" + rest;
    PrefixInTwo(identity, "sri/", "solo/");
    PrefixInTwo(identity, "sri/", "donate/");
    assert "sri/" + "solo/" == "sri/solo/" && "sri/" + "donate/" == "sri/donate/";
    SriIsNoAddress(scripts, rest);
    UnderSri(scripts, rest);
    assert rest == "donate" <==> identity == "sri/donate" by {
      assert "sri/donate"[4..] == "donate" && "sri/" + "donate" == "sri/donate";
    }
  }

  lemma NoSriForm(scripts: Addresses, identity: string)
    requires !("sri/" <= identity)
    ensures identity != "sri/donate"
    ensures Parse(scripts, identity) ==
            if identity != "" && scripts(AddressPart(identity)).Some?
            then Ok(LegacySolo(AddressPart(identity), scripts(AddressPart(identity)).value))
            else Err(NoPayoutMode(identity))
  {
    hide Split, Head, AddressPart;
    NoSriPrefix(identity);
    assert "sri/" <= "sri/donate";
  }

  lemma PrefixInTwo(s: string, a: string, b: string)
    ensures a + b <= s <==> a <= s && b <= s[|a|..]
  {
    if a + b <= s {
      assert a == (a + b)[..|a|] == s[..|a|];
      assert b == (a + b)[|a|..] == s[|a|..][..|b|];
    }
  }

  // -- Each mode is parsed from its documented identities and from no others ---------------------

  lemma ExtendsInTwo(s: string, lead: string, base: string)
    requires lead <= s
    ensures Extends(s, lead + base, '/') <==> Extends(s[|lead|..], base, '/')
  {
    PrefixInTwo(s, lead, base);
  }

  /** `sri/solo/<address>` and `sri/solo/<address>/<worker>`, the worker being any text. */
  lemma SoloExactly(scripts: Addresses, identity: string, address: string, script: Script)
    requires RejectsSlashes(scripts)
    ensures Parse(scripts, identity) == Ok(Solo(address, script))
            <==> scripts(address) == Some(script) && Extends(identity, "sri/solo/" + address, '/')
  {
    hide Parse, Head;
    if "sri/solo/" <= identity {
      var rest := identity[9..];
      assert identity == "sri/solo/" + rest;
      SoloForm(scripts, rest);
      ExtendsInTwo(identity, "sri/solo/", address);
      if '/' !in address {
        HeadIsUnique(rest, address, '/');
      }
    } else {
      PrefixInTwo(identity, "sri/solo/", address);
      NotSolo(scripts, identity);
    }
  }

  lemma NotSolo(scripts: Addresses, identity: string)
    requires RejectsSlashes(scripts) && !("sri/solo/" <= identity)
    ensures var parsed := Parse(scripts, identity); parsed.Ok? ==> !parsed.mode.Solo?
  {
    hide Parse, Head, Tail, ParseU8, AddressPart, RejectsSlashes;
    if "sri/donate/" <= identity {
      assert identity == "sri/donate/" + identity[11..];
      DonateForm(scripts, identity[11..]);
    } else {
      OtherForms(scripts, identity);
    }
  }

  /** Where a donation is read, in terms of the next two parts. */
  lemma DonateParsed(scripts: Addresses, rest: string, n: U8, address: string, script: Script)
    requires RejectsSlashes(scripts)
    ensures Parse(scripts, "sri/donate/" + rest) == Ok(Donate(n, address, script))
            <==> && 1 <= n <= 99 && scripts(address) == Some(script)
                 && Head(rest, '/') != rest && ParseU8(Head(rest, '/')) == Some(n) && Head(Tail(rest), '/') == address
  {
    hide Parse, Head, Tail, Split, ParseU8;
    DonateForm(scripts, rest);
    SplitAgain(rest);
  }

  /** The same two parts, as a documented form. */
  lemma DonateShape(rest: string, n: U8, text: string, address: string)
    requires ParseU8(text) == Some(n) && '/' !in address
    ensures Extends("sri/donate/" + rest, "sri/donate/" + (text + "/" + address), '/')
            <==> Head(rest, '/') == text != rest && Head(Tail(rest), '/') == address
  {
    hide Head, Tail, ParseU8, Extends;
    ExtendsInTwo("sri/donate/" + rest, "sri/donate/", text + "/" + address);
    NumbersHaveNoSlash(text);
    TwoParts(rest, text, address);
    assert ("sri/donate/" + rest)[|"sri/donate/"|..] == rest;
  }

  /** `sri/donate/<percentage>/<address>` and `sri/donate/<percentage>/<address>/<worker>`. */
  lemma DonateExactly(scripts: Addresses, identity: string, n: U8, address: string, script: Script)
    requires RejectsSlashes(scripts)
    ensures Parse(scripts, identity) == Ok(Donate(n, address, script))
            <==> && 1 <= n <= 99 && scripts(address) == Some(script)
                 && exists text :: ParseU8(text) == Some(n)
                                   && Extends(identity, "sri/donate/" + (text + "/" + address), '/')
  {
    hide Parse, Head, Tail, ParseU8, Extends;
    if "sri/donate/" <= identity {
      var rest := identity[11..];
      assert identity == "sri/donate/" + rest;
      DonateParsed(scripts, rest, n, address, script);
      forall text | ParseU8(text) == Some(n) && '/' !in address
        ensures Extends(identity, "sri/donate/" + (text + "/" + address), '/')
                <==> Head(rest, '/') == text != rest && Head(Tail(rest), '/') == address
      {
        DonateShape(rest, n, text, address);
      }
    } else {
      forall text ensures !Extends(identity, "sri/donate/" + (text + "/" + address), '/') {
        if Extends(identity, "sri/donate/" + (text + "/" + address), '/') {
          ExtendsIsPrefix(identity, "sri/donate/", text + "/" + address);
        }
      }
      NotDonate(scripts, identity);
    }
  }

  lemma ExtendsIsPrefix(s: string, lead: string, base: string)
    requires Extends(s, lead + base, '/')
    ensures lead <= s
  {
    PrefixInTwo(s, lead, base);
  }

  lemma NotDonate(scripts: Addresses, identity: string)
    requires RejectsSlashes(scripts) && !("sri/donate/" <= identity)
    ensures var parsed := Parse(scripts, identity); parsed.Ok? ==> !parsed.mode.Donate?
    ensures Parse(scripts, identity) == Ok(FullDonation) <==> identity == "sri/donate"
  {
    hide Parse, Head;
    if "sri/solo/" <= identity {
      SoloForm(scripts, identity[9..]);
      assert identity == "sri/solo/" + identity[9..];
      assert "sri/solo/"[4] != "sri/donate"[4];
    } else {
      OtherForms(scripts, identity);
      assert "sri/donate" == "sri/" + "donate";
      SriIsNoAddress(scripts, "donate");
    }
  }

  lemma NumbersHaveNoSlash(text: string)
    requires ParseU8(text).Some?
    ensures '/' !in text
  {
    forall i | 0 <= i < |text| ensures text[i] != '/' {
      var digits := if |text| > 1 && text[0] == '+' then text[1..] else text;
      assert AllDigits(digits);
      if digits == text {
        assert IsDigit(digits[i]);
      } else if i > 0 {
        assert IsDigit(digits[i - 1]) && text[i] == digits[i - 1];
      }
    }
  }

  lemma TwoParts(rest: string, first: string, second: string)
    requires '/' !in first && '/' !in second
    ensures Extends(rest, first + "/" + second, '/')
            <==> Head(rest, '/') == first != rest && Head(Tail(rest), '/') == second
  {
    var lead := first + "/";
    Regroup(first, "/", second);
    if lead <= rest {
      var after := rest[|lead|..];
      assert rest == first + "/" + after;
      HeadOfJoined(first, after);
      ExtendsInTwo(rest, lead, second);
      HeadIsUnique(after, second, '/');
      hide Head, Tail, Extends;
    } else {
      PrefixInTwo(rest, lead, second);
      SplitAgain(rest);
      hide Head, Tail;
    }
  }

  /** `sri/donate`, and `sri/donate/<worker>` for a worker name without a slash. */
  lemma FullDonationExactly(scripts: Addresses, identity: string)
    requires RejectsSlashes(scripts)
    ensures Parse(scripts, identity) == Ok(FullDonation)
            <==> identity == "sri/donate" || ("sri/donate/" <= identity && '/' !in identity[11..])
  {
    hide Parse, Head, Tail, Split, ParseU8, Decimal, RejectsSlashes;
    if "sri/donate/" <= identity {
      var rest := identity[11..];
      assert identity == "sri/donate/" + rest;
      DonateForm(scripts, rest);
      CutAtHead(rest);
      assert |identity| > |"sri/donate"|;
    } else {
      NotDonate(scripts, identity);
    }
  }

  /** `<address>` and `<address>.<worker>`. */
  lemma LegacyExactly(scripts: Addresses, identity: string, address: string, script: Script)
    requires RejectsSlashes(scripts)
    ensures Parse(scripts, identity) == Ok(LegacySolo(address, script))
            <==> && identity != "" && '.' !in address && scripts(address) == Some(script)
                 && Extends(identity, address, '.')
  {
    hide Head, ParseParts;
    var part := AddressPart(identity);
    if '.' !in address {
      HeadIsUnique(identity, address, '.');
    }
    if scripts(part).None? {
      NotLegacy(scripts, identity);
    }
  }

  lemma NotLegacy(scripts: Addresses, identity: string)
    requires scripts(AddressPart(identity)).None?
    ensures var parsed := Parse(scripts, identity); parsed.Ok? ==> !parsed.mode.LegacySolo?
  {
    hide Head, Split, AddressPart;
  }

  /** Every documented format gives back the mode, the address and the percentage that went into it. */
  lemma FormatsRoundTrip(scripts: Addresses, address: string, script: Script, n: U8, worker: string)
    requires RejectsSlashes(scripts) && scripts(address) == Some(script) && address != "" && '.' !in address
    requires 1 <= n <= 99
    ensures Parse(scripts, address) == Ok(LegacySolo(address, script))
    ensures Parse(scripts, address + "." + worker) == Ok(LegacySolo(address, script))
    ensures Parse(scripts, "sri/solo/" + address) == Ok(Solo(address, script))
    ensures Parse(scripts, "sri/solo/" + address + "/" + worker) == Ok(Solo(address, script))
    ensures Parse(scripts, "sri/donate/" + (Decimal(n) + "/" + address)) == Ok(Donate(n, address, script))
    ensures Parse(scripts, "sri/donate/" + (Decimal(n) + "/" + address) + "/" + worker)
            == Ok(Donate(n, address, script))
    ensures Parse(scripts, "sri/donate") == Ok(FullDonation)
    ensures Parse(scripts, "sri/donate/" + worker) == Ok(FullDonation) <==> '/' !in worker
  {
    hide *;
    LegacyExactly(scripts, address, address, script);
    LegacyExactly(scripts, address + "." + worker, address, script);
    WithWorker(address, '.', worker);
    var solo, donate := "sri/solo/" + address, "sri/donate/" + (Decimal(n) + "/" + address);
    SoloExactly(scripts, solo, address, script);
    SoloExactly(scripts, solo + "/" + worker, address, script);
    WithWorker(solo, '/', worker);
    ParsesDecimal(n);
    DonateExactly(scripts, donate, n, address, script);
    DonateExactly(scripts, donate + "/" + worker, n, address, script);
    WithWorker(donate, '/', worker);
    FullDonationExactly(scripts, "sri/donate");
    FullDonationExactly(scripts, "sri/donate/" + worker);
    assert ("sri/donate/" + worker)[11..] == worker;
  }

  lemma WithWorker(base: string, sep: char, worker: string)
    ensures Extends(base, base, sep) && Extends(base + [sep] + worker, base, sep)
  {
  }

  // -- Which error an identity gives ---------------------------------------------------------------

  /** The part that is to be an address, in the two forms that have one. */
  ghost predicate NamesAddress(identity: string, address: string) {
    && '/' !in address
    && (|| Extends(identity, "sri/solo/" + address, '/')
        || exists text, n: U8 ::
             1 <= n <= 99 && ParseU8(text) == Some(n) && Extends(identity, "sri/donate/" + (text + "/" + address), '/'))
  }

  /** The part between `sri/donate/` and a further slash. */
  predicate NamesPercentage(identity: string, text: string) {
    '/' !in text && "sri/donate/" + (text + "/") <= identity
  }

  /** What is wrong with this text of a percentage: it is no number of eight bits, or a number out of range,
      which is then reported in its decimal form. */
  predicate WrongPercentage(text: string, reported: string) {
    match ParseU8(text)
    case None => reported == text
    case Some(n) => !(1 <= n <= 99) && reported == Decimal(n)
  }

  ghost predicate Deserves(scripts: Addresses, identity: string, e: Error) {
    match e
    case NoPayoutMode(i) =>
      i == identity && !("sri/" <= identity) && (identity == "" || scripts(AddressPart(identity)).None?)
    case InvalidUserIdentity(i) =>
      && i == identity && "sri/" <= identity && identity != "sri/donate"
      && !("sri/solo/" <= identity) && !("sri/donate/" <= identity)
    case InvalidPayoutAddress(address) => scripts(address).None? && NamesAddress(identity, address)
    case InvalidDonationPercentage(reported) =>
      exists text :: NamesPercentage(identity, text) && WrongPercentage(text, reported)
  }

  lemma SoloErrors(scripts: Addresses, rest: string, e: Error)
    requires RejectsSlashes(scripts)
    ensures Parse(scripts, "sri/solo/" + rest) == Err(e) <==> Deserves(scripts, "sri/solo/" + rest, e)
  {
    var identity := "sri/solo/" + rest;
    SoloForm(scripts, rest);
    hide Parse, Head, ParseU8;
    OnlySolo(rest);
    match e
    case InvalidPayoutAddress(address) =>
      ExtendsInTwo(identity, "sri/solo/", address);
      assert identity[9..] == rest;
      if '/' !in address {
        HeadIsUnique(rest, address, '/');
      }
      forall text ensures !Extends(identity, "sri/donate/" + (text + "/" + address), '/') {
        if Extends(identity, "sri/donate/" + (text + "/" + address), '/') {
          ExtendsIsPrefix(identity, "sri/donate/", text + "/" + address);
        }
      }
    case InvalidDonationPercentage(reported) =>
      forall text ensures !NamesPercentage(identity, text) {
        PrefixInTwo(identity, "sri/donate/", text + "/");
      }
    case _ =>
  }

  lemma OnlySolo(rest: string)
    ensures "sri/" <= "sri/solo/" + rest && "sri/solo/" <= "sri/solo/" + rest && !("sri/donate/" <= "sri/solo/" + rest)
  {
    var identity := "sri/solo/" + rest;
    assert identity[4] == 's' && "sri/donate/"[4] == 'd';
    assert identity[..4] == "sri/";
  }

  lemma OnlyDonate(rest: string)
    ensures var identity := "sri/donate/" + rest;
            "sri/" <= identity && "sri/donate/" <= identity && !("sri/solo/" <= identity) && identity[11..] == rest
  {
    var identity := "sri/donate/" + rest;
    assert identity[4] == 'd' && "sri/solo/"[4] == 's';
    assert identity[..4] == "sri/";
  }

  lemma PercentageNamed(rest: string, text: string)
    ensures NamesPercentage("sri/donate/" + rest, text) <==> Head(rest, '/') == text != rest
  {
    hide Head, Tail, Split;
    OnlyDonate(rest);
    PrefixInTwo("sri/donate/" + rest, "sri/donate/", text + "/");
    LeadNamed(rest, text);
  }

  lemma LeadNamed(rest: string, text: string)
    ensures '/' !in text && text + "/" <= rest <==> Head(rest, '/') == text != rest
  {
    hide Head, Tail, Split;
    if '/' !in text && text + "/" <= rest {
      var lead := text + "/";
      assert lead == rest[..|lead|];
      assert rest == lead + rest[|text| + 1..];
      HeadOfJoined(text, rest[|text| + 1..]);
    }
    CutAtHead(rest);
  }

  lemma AddressNamed(rest: string, address: string)
    ensures NamesAddress("sri/donate/" + rest, address) <==>
              && Head(rest, '/') != rest && Head(Tail(rest), '/') == address
              && ParseU8(Head(rest, '/')).Some? && 1 <= ParseU8(Head(rest, '/')).value <= 99
  {
    hide Head, Tail, ParseU8, Extends;
    var identity := "sri/donate/" + rest;
    OnlyDonate(rest);
    if Extends(identity, "sri/solo/" + address, '/') {
      ExtendsIsPrefix(identity, "sri/solo/", address);
    }
    forall text, n: U8 | ParseU8(text) == Some(n) && '/' !in address
      ensures Extends(identity, "sri/donate/" + (text + "/" + address), '/')
              <==> Head(rest, '/') == text != rest && Head(Tail(rest), '/') == address
    {
      DonateShape(rest, n, text, address);
    }
  }

  lemma ParseDonateErrors(scripts: Addresses, text: string, address: string, e: Error)
    ensures ParseDonate(scripts, text, address) == Err(e) <==>
            match e
            case InvalidPayoutAddress(a) =>
              a == address && scripts(a).None? && ParseU8(text).Some? && 1 <= ParseU8(text).value <= 99
            case InvalidDonationPercentage(reported) => WrongPercentage(text, reported)
            case _ => false
  {
    hide ParseU8, Decimal;
  }

  /** The only text that can be named, if there is one, is what stands before the slash. */
  lemma WrongPercentageNamed(rest: string, reported: string)
    ensures (exists text :: NamesPercentage("sri/donate/" + rest, text) && WrongPercentage(text, reported))
            <==> Head(rest, '/') != rest && WrongPercentage(Head(rest, '/'), reported)
  {
    hide Head, WrongPercentage, NamesPercentage;
    forall text
      ensures NamesPercentage("sri/donate/" + rest, text) <==> Head(rest, '/') == text != rest
    {
      PercentageNamed(rest, text);
    }
  }

  lemma DonateErrors(scripts: Addresses, rest: string, e: Error)
    requires RejectsSlashes(scripts)
    ensures Parse(scripts, "sri/donate/" + rest) == Err(e) <==> Deserves(scripts, "sri/donate/" + rest, e)
  {
    hide Parse, Head, Tail, ParseU8, ParseDonate, WrongPercentage, NamesPercentage, NamesAddress, RejectsSlashes;
    DonateForm(scripts, rest);
    OnlyDonate(rest);
    if Head(rest, '/') != rest {
      ParseDonateErrors(scripts, Head(rest, '/'), Head(Tail(rest), '/'), e);
    }
    match e
    case InvalidPayoutAddress(address) => AddressNamed(rest, address);
    case InvalidDonationPercentage(reported) => WrongPercentageNamed(rest, reported);
    case _ =>
  }

  lemma BehindLead(s: string, lead: string)
    requires lead <= s
    ensures s == lead + s[|lead|..]
  {
  }

  lemma OtherErrors(scripts: Addresses, identity: string, e: Error)
    requires RejectsSlashes(scripts) && !("sri/solo/" <= identity) && !("sri/donate/" <= identity)
    ensures Parse(scripts, identity) == Err(e) <==> Deserves(scripts, identity, e)
  {
    OtherForms(scripts, identity);
    hide Parse, Head, ParseU8, Extends;
    if "sri/" <= identity {
      BehindLead(identity, "sri/");
      SriIsNoAddress(scripts, identity[4..]);
    }
    assert "sri/" <= "sri/donate";
    match e
    case InvalidPayoutAddress(address) =>
      if Extends(identity, "sri/solo/" + address, '/') {
        ExtendsIsPrefix(identity, "sri/solo/", address);
      }
      forall text ensures !Extends(identity, "sri/donate/" + (text + "/" + address), '/') {
        if Extends(identity, "sri/donate/" + (text + "/" + address), '/') {
          ExtendsIsPrefix(identity, "sri/donate/", text + "/" + address);
        }
      }
    case InvalidDonationPercentage(reported) =>
      forall text ensures !NamesPercentage(identity, text) {
        PrefixInTwo(identity, "sri/donate/", text + "/");
      }
    case _ =>
  }

  /** For every identity and every error: this error is given exactly if the identity deserves it. */
  lemma ErrorsExactly(scripts: Addresses, identity: string, e: Error)
    requires RejectsSlashes(scripts)
    ensures Parse(scripts, identity) == Err(e) <==> Deserves(scripts, identity, e)
  {
    hide Parse, Deserves;
    if "sri/solo/" <= identity {
      assert identity == "sri/solo/" + identity[9..];
      SoloErrors(scripts, identity[9..], e);
    } else if "sri/donate/" <= identity {
      assert identity == "sri/donate/" + identity[11..];
      DonateErrors(scripts, identity[11..], e);
    } else {
      OtherErrors(scripts, identity, e);
    }
  }
}
