/** `validateEmail` and `validatePhone` (static/js/main.js:384-392): two anchored
    regular expressions, written here as predicates over characters. A JavaScript
    string is a sequence of UTF-16 code units; every character either pattern
    singles out lies in the Basic Multilingual Plane, so one `char` stands for one
    code unit. */
module Contact {
  import opened Basics

  /** `\s` of a JavaScript regular expression: the WhiteSpace and LineTerminator
      code points of ECMAScript (tab, line feed, vertical tab, form feed, carriage
      return, space, no-break space, the Unicode space separators, line and
      paragraph separator, and the byte order mark). */
  predicate IsJsSpace(c: char) {
    var u := c as int;
    || 0x09 <= u <= 0x0D
    || u == 0x20 || u == 0xA0 || u == 0x1680
    || 0x2000 <= u <= 0x200A
    || u == 0x2028 || u == 0x2029 || u == 0x202F || u == 0x205F || u == 0x3000
    || u == 0xFEFF
  }

  /** `[^\s@]`: any character but whitespace and `@`. */
  predicate Plain(c: char) {
    !IsJsSpace(c) && c != '@'
  }

  /** `[^\s@]+`. */
  predicate PlainRun(s: string) {
    |s| > 0 && forall i :: 0 <= i < |s| ==> Plain(s[i])
  }

  /** `/^[^\s@]+@[^\s@]+\.[^\s@]+$/.test(email)`: some `@` at `at` and some `.` at
      `dot` cut the input into three non-empty runs of plain characters. */
  predicate ValidateEmail(email: string) {
    exists at, dot | 0 < at && at + 1 < dot && dot + 1 < |email| ::
      && email[at] == '@' && email[dot] == '.'
      && PlainRun(email[..at]) && PlainRun(email[at + 1..dot]) && PlainRun(email[dot + 1..])
  }

  /** The shape the pattern describes, stated without it: no whitespace anywhere,
      exactly one `@`, not at the start, and a `.` after it with at least one
      character on each side. */
  predicate EmailShape(email: string) {
    && (forall i :: 0 <= i < |email| ==> !IsJsSpace(email[i]))
    && exists at | 0 < at < |email| ::
         && email[at] == '@'
         && (forall i :: 0 <= i < |email| && email[i] == '@' ==> i == at)
         && (exists k :: at + 1 < k < |email| - 1 && email[k] == '.')
  }

  /** The regular expression accepts exactly the strings of that shape. */
  lemma ValidateEmailMeaning(email: string)
    ensures ValidateEmail(email) <==> EmailShape(email)
  {
    if ValidateEmail(email) {
      AcceptedEmailHasShape(email);
    }
    if EmailShape(email) {
      EmailShapeIsAccepted(email);
    }
  }

  lemma AcceptedEmailHasShape(email: string)
    requires ValidateEmail(email)
    ensures EmailShape(email)
  {
    var at, dot :| 0 < at && at + 1 < dot && dot + 1 < |email|
      && email[at] == '@' && email[dot] == '.'
      && PlainRun(email[..at]) && PlainRun(email[at + 1..dot]) && PlainRun(email[dot + 1..]);
    forall i | 0 <= i < |email| && i != at && i != dot ensures Plain(email[i]) {
      if i < at {
        assert email[..at][i] == email[i];
      } else if i < dot {
        assert email[at + 1..dot][i - at - 1] == email[i];
      } else {
        assert email[dot + 1..][i - dot - 1] == email[i];
      }
    }
    assert at + 1 < dot < |email| - 1 && email[dot] == '.';
  }

  lemma EmailShapeIsAccepted(email: string)
    requires EmailShape(email)
    ensures ValidateEmail(email)
  {
    var at :| 0 < at < |email| && email[at] == '@'
      && (forall i :: 0 <= i < |email| && email[i] == '@' ==> i == at)
      && (exists k :: at + 1 < k < |email| - 1 && email[k] == '.');
    var dot :| at + 1 < dot < |email| - 1 && email[dot] == '.';
    assert PlainRun(email[..at]);
    assert PlainRun(email[at + 1..dot]);
    assert PlainRun(email[dot + 1..]);
  }

  /** An ordinary address is accepted. */
  lemma PlainAddressIsAccepted()
    ensures ValidateEmail("ana@escola.br")
  {
    var s := "ana@escola.br";
    assert s[3] == '@' && s[10] == '.';
    assert PlainRun(s[..3]) && PlainRun(s[4..10]) && PlainRun(s[11..]);
  }

  /** A domain without a dot is rejected. */
  lemma DotlessDomainIsRejected()
    ensures !ValidateEmail("ana@escola")
  {
    ValidateEmailMeaning("ana@escola");
  }

  /** A second `@` is rejected. */
  lemma SecondAtIsRejected()
    ensures !ValidateEmail("a@b@c.d")
  {
    ValidateEmailMeaning("a@b@c.d");
    assert "a@b@c.d"[1] == '@' && "a@b@c.d"[3] == '@';
  }

  /** A blank is rejected. */
  lemma BlankIsRejected()
    ensures !ValidateEmail("ana silva@escola.br")
  {
    ValidateEmailMeaning("ana silva@escola.br");
    assert IsJsSpace("ana silva@escola.br"[3]);
  }

  /** `/^\(\d{2}\)\s\d{4,5}-\d{4}$/.test(phone)`: `(`, two digits, `)`, one whitespace
      character, four or five digits, `-`, four digits, and nothing else. */
  function ValidatePhone(phone: string): (ok: bool)
    ensures ok ==> |phone| == 14 || |phone| == 15
  {
    var n := |phone| - 10;
    && (n == 4 || n == 5)
    && phone[0] == '(' && IsDigit(phone[1]) && IsDigit(phone[2]) && phone[3] == ')'
    && IsJsSpace(phone[4])
    && (forall i :: 5 <= i < 5 + n ==> IsDigit(phone[i]))
    && phone[5 + n] == '-'
    && (forall i :: 6 + n <= i < |phone| ==> IsDigit(phone[i]))
  }

  /** A phone number taken apart: area code, the separating blank, the exchange and
      the line number. */
  datatype PhoneParts = PhoneParts(area: string, blank: char, exchange: string, line: string)

  predicate WellFormedParts(p: PhoneParts) {
    && |p.area| == 2 && AllDigits(p.area)
    && IsJsSpace(p.blank)
    && (|p.exchange| == 4 || |p.exchange| == 5) && AllDigits(p.exchange)
    && |p.line| == 4 && AllDigits(p.line)
  }

  /** The number written out in the shape the pattern describes. */
  function FormatPhone(p: PhoneParts): (s: string)
    ensures |s| == 4 + |p.area| + |p.exchange| + |p.line|
  {
    "(" + p.area + ")" + [p.blank] + p.exchange + "-" + p.line
  }

  /** Taking an accepted number apart again. */
  function ParsePhone(phone: string): (p: PhoneParts)
    requires ValidatePhone(phone)
    ensures WellFormedParts(p) && FormatPhone(p) == phone
  {
    var n := |phone| - 10;
    var p := PhoneParts(phone[1..3], phone[4], phone[5..5 + n], phone[6 + n..]);
    assert forall i :: 0 <= i < 2 ==> p.area[i] == phone[1 + i];
    assert forall i :: 0 <= i < n ==> p.exchange[i] == phone[5 + i];
    assert forall i :: 0 <= i < 4 ==> p.line[i] == phone[6 + n + i];
    assert FormatPhone(p) == phone;
    p
  }

  /** Every well-formed number is accepted, and its parts are recovered from it. */
  lemma FormatPhoneIsAccepted(p: PhoneParts)
    requires WellFormedParts(p)
    ensures ValidatePhone(FormatPhone(p))
    ensures ParsePhone(FormatPhone(p)) == p
  {
    var s := FormatPhone(p);
    var n := |p.exchange|;
    forall i | 5 <= i < 5 + n ensures IsDigit(s[i]) {
      assert s[i] == p.exchange[i - 5];
    }
    forall i | 6 + n <= i < |s| ensures IsDigit(s[i]) {
      assert s[i] == p.line[i - 6 - n];
    }
    assert forall i :: 0 <= i < 2 ==> s[1..3][i] == p.area[i];
    assert forall i :: 0 <= i < n ==> s[5..5 + n][i] == p.exchange[i];
    assert forall i :: 0 <= i < 4 ==> s[6 + n..][i] == p.line[i];
    assert s[1..3] == p.area && s[5..5 + n] == p.exchange && s[6 + n..] == p.line;
  }

  /** The pattern accepts exactly the numbers written out from well-formed parts. */
  lemma ValidatePhoneMeaning(phone: string)
    ensures ValidatePhone(phone) <==> exists p :: WellFormedParts(p) && FormatPhone(p) == phone
  {
    if ValidatePhone(phone) {
      var p := ParsePhone(phone);
    }
    if exists p :: WellFormedParts(p) && FormatPhone(p) == phone {
      var p :| WellFormedParts(p) && FormatPhone(p) == phone;
      FormatPhoneIsAccepted(p);
    }
  }

  /** A mobile number, with a five-digit exchange, is accepted. */
  lemma MobileNumberIsAccepted()
    ensures ValidatePhone("(11) 98765-4321")
  {
    var p := PhoneParts("11", ' ', "98765", "4321");
    FormatPhoneIsAccepted(p);
    assert FormatPhone(p) == "(11) 98765-4321";
  }

  /** A landline number, with a four-digit exchange, is accepted. */
  lemma LandlineNumberIsAccepted()
    ensures ValidatePhone("(11) 3456-7890")
  {
    var p := PhoneParts("11", ' ', "3456", "7890");
    FormatPhoneIsAccepted(p);
    assert FormatPhone(p) == "(11) 3456-7890";
  }

  /** A missing blank or missing parentheses are rejected. */
  lemma MalformedNumbersAreRejected()
    ensures !ValidatePhone("(11)98765-4321")
    ensures !ValidatePhone("11 98765-4321")
  {
  }
}
