/**
 * The reservations list page's display helpers: the phone-number
 * reformatting, the guest count's label and the status badge.
 */
module ReservationsPage {
  import opened Wrappers
  import opened Models
  import WelcomePage

  // ---------------------------------------------------------------- phone numbers

  /** Ten ASCII digits in a row start at `i`: what `(\d{3})(\d{3})(\d{4})` matches there. */
  predicate DigitRunAt(s: string, i: nat) {
    i + 10 <= |s| && forall j :: i <= j < i + 10 ==> WelcomePage.IsDigit(s[j])
  }

  /** The leftmost run of ten digits at or after `from`, as a regular-expression search finds it. */
  function FirstDigitRun(s: string, from: nat): (r: Option<nat>)
    ensures r.Some? ==> from <= r.value && DigitRunAt(s, r.value)
    ensures r.Some? ==> forall j: nat :: from <= j < r.value ==> !DigitRunAt(s, j)
    ensures r.None? ==> forall j: nat :: from <= j ==> !DigitRunAt(s, j)
    decreases |s| - from
  {
    if from + 10 > |s| then None
    else if DigitRunAt(s, from) then Some(from)
    else FirstDigitRun(s, from + 1)
  }

  /** `formatPhone`: the first ten-digit run d1..d10 becomes "(d1d2d3) d4d5d6-d7d8d9d10". */
  function FormatPhone(phone: string): string {
    match FirstDigitRun(phone, 0)
    case None => phone
    case Some(i) =>
      phone[..i] + ("(" + (phone[i..i + 3] + (") " + (phone[i + 3..i + 6] + ("-" + (phone[i + 6..i + 10] + phone[i + 10..]))))))
  }

  /**
   * Only the leftmost run is rewritten: everything before it and everything
   * after its tenth digit is kept in place, and the text grows by exactly
   * the four characters "(", ")", " " and "-".
   */
  lemma FormatPhoneRewritesFirstRun(phone: string, i: nat)
    requires FirstDigitRun(phone, 0) == Some(i)
    ensures var r := FormatPhone(phone);
      && |r| == |phone| + 4
      && r[..i] == phone[..i]
      && r[i + 14..] == phone[i + 10..]
      && r[i..i + 14] == "(" + phone[i..i + 3] + ") " + phone[i + 3..i + 6] + "-" + phone[i + 6..i + 10]
  {
    var r := FormatPhone(phone);
    var middle := "(" + phone[i..i + 3] + ") " + phone[i + 3..i + 6] + "-" + phone[i + 6..i + 10];
    assert r == phone[..i] + middle + phone[i + 10..];
    assert |middle| == 14;
  }

  /** A number is left alone exactly when it holds no ten digits in a row. */
  lemma FormatPhoneUnchangedIffNoRun(phone: string)
    ensures FormatPhone(phone) == phone <==> forall j: nat :: !DigitRunAt(phone, j)
  {
  }

  /** The digits of a string, in order. */
  function Digits(s: string): (r: string)
    ensures |r| <= |s|
  {
    if s == [] then [] else (if WelcomePage.IsDigit(s[0]) then [s[0]] else []) + Digits(s[1..])
  }

  lemma {:induction false} DigitsAppend(a: string, b: string)
    ensures Digits(a + b) == Digits(a) + Digits(b)
  {
    if a != [] {
      var x := if WelcomePage.IsDigit(a[0]) then [a[0]] else [];
      assert (a + b)[0] == a[0] && (a + b)[1..] == a[1..] + b;
      assert Digits(a + b) == x + Digits(a[1..] + b);
      DigitsAppend(a[1..], b);
      assert Digits(a) == x + Digits(a[1..]);
    } else {
      assert a + b == b;
    }
  }

  lemma {:induction false} DigitsOfDigits(s: string)
    requires forall j :: 0 <= j < |s| ==> WelcomePage.IsDigit(s[j])
    ensures Digits(s) == s
  {
    if s != [] {
      DigitsOfDigits(s[1..]);
    }
  }

  /** Reformatting only adds punctuation: the digits read in order are the same. */
  lemma FormatPhoneKeepsDigits(phone: string)
    ensures Digits(FormatPhone(phone)) == Digits(phone)
  {
    match FirstDigitRun(phone, 0)
    case None =>
    case Some(i) =>
      var a, b, c, d, e := phone[..i], phone[i..i + 3], phone[i + 3..i + 6], phone[i + 6..i + 10], phone[i + 10..];
      assert phone == a + (b + (c + (d + e)));
      DigitsOfDigits(b);
      DigitsOfDigits(c);
      DigitsOfDigits(d);
      PunctuationAddsNoDigits(a, b, c, d, e);
  }

  lemma PunctuationAddsNoDigits(a: string, b: string, c: string, d: string, e: string)
    requires Digits(b) == b && Digits(c) == c && Digits(d) == d
    ensures Digits(a + ("(" + (b + (") " + (c + ("-" + (d + e))))))) == Digits(a + (b + (c + (d + e))))
  {
    var tail := d + e;
    DigitsAppend(d, e);
    var t1 := c + ("-" + tail);
    SkipPunctuation(c, "-", tail);
    var t2 := b + (") " + t1);
    SkipPunctuation(b, ") ", t1);
    SkipPunctuation(a, "(", t2);
    DigitsAppend(c, tail);
    DigitsAppend(b, c + tail);
    DigitsAppend(a, b + (c + tail));
    DigitsAppend(a, b + t1);
    DigitsAppend(b, c + tail);
  }

  /** Removing digit-free punctuation `p` between `x` and `y` leaves the digits of `x` and `y`. */
  lemma SkipPunctuation(x: string, p: string, y: string)
    requires p == "(" || p == ") " || p == "-"
    ensures Digits(x + (p + y)) == Digits(x) + Digits(y)
  {
    PunctuationHasNoDigits();
    DigitsAppend(p, y);
    DigitsAppend(x, p + y);
  }

  lemma PunctuationHasNoDigits()
    ensures Digits("(") == [] && Digits(") ") == [] && Digits("-") == []
  {
  }

  /** A seven-digit local number such as "555-1234" is shown as entered. */
  lemma ShortNumberUnchanged()
    ensures FormatPhone("555-1234") == "555-1234"
  {
  }

  // ---------------------------------------------------------------- guests

  /** The word after the party size. */
  function GuestWord(pax: int): string {
    if pax == 1 then "guest" else "guests"
  }

  /** The word is singular exactly for a party of one, and otherwise the plural "s" is added. */
  lemma GuestWordSingularIffOne(pax: int)
    ensures GuestWord(pax) == "guest" <==> pax == 1
    ensures pax != 1 ==> GuestWord(pax) == GuestWord(1) + "s"
  {
  }

  // ---------------------------------------------------------------- status badge

  datatype Tone = BlueTone | GreenTone | RedTone | GrayTone | PlainTone

  datatype Badge = Badge(text: string, tone: Tone)

  /** `getStatusBadge`. */
  function StatusBadge(status: string): Badge {
    if status == "confirmed" then Badge("Confirmed", BlueTone)
    else if status == "seated" then Badge("Seated", GreenTone)
    else if status == "cancelled" then Badge("Cancelled", RedTone)
    else if status == "completed" then Badge("Completed", GrayTone)
    else Badge(status, PlainTone)
  }

  function UpperAscii(c: char): char {
    if 'a' <= c <= 'z' then (c as int - 32) as char else c
  }

  /** The status word with its first letter upper-cased. */
  function Capitalise(s: string): string {
    if s == [] then [] else [UpperAscii(s[0])] + s[1..]
  }

  /**
   * A known status is labelled with its own name capitalised and gets a
   * tone of its own; any other status is shown verbatim and untoned.
   */
  lemma StatusBadgeLabels(status: string, v: ReservationStatus, w: ReservationStatus)
    ensures StatusBadge(ReservationStatusName(v)).text == Capitalise(ReservationStatusName(v))
    ensures StatusBadge(ReservationStatusName(v)).tone != PlainTone
    ensures StatusBadge(ReservationStatusName(v)).tone == StatusBadge(ReservationStatusName(w)).tone ==> v == w
    ensures ParseReservationStatus(status).None? ==> StatusBadge(status) == Badge(status, PlainTone)
  {
  }
}
