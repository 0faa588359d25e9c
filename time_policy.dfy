/** The bot's time rules: check-in eligibility, the rendering of a remaining
    duration (getRemainingTime) and the two random draws of a transformation
    (getRandomAnimal, getRandomTransformDuration). Times are integer
    milliseconds. */
module TimePolicy {
  import opened Options
  import opened Text

  const MsPerSecond: nat := 1000
  const MsPerMinute: nat := 60 * 1000
  const MsPerHour: nat := 60 * 60 * 1000
  const MsPerDay: nat := 24 * 60 * 60 * 1000

  /** A repeat check-in is accepted only when strictly more than one day has
      passed since the last accepted one. */
  predicate IsCheckinEligible(now: int, lastCheckin: int)
    ensures IsCheckinEligible(now, lastCheckin) ==> now > lastCheckin
  {
    now - lastCheckin > MsPerDay
  }

  /** Exactly one day after the last check-in is still too early, one
      millisecond later is not, and once eligible a user stays eligible. */
  lemma CheckinEligibility(lastCheckin: int, now: int, later: int)
    requires now <= later
    ensures !IsCheckinEligible(lastCheckin + 24 * 60 * 60 * 1000, lastCheckin)
    ensures IsCheckinEligible(lastCheckin + 24 * 60 * 60 * 1000 + 1, lastCheckin)
    ensures IsCheckinEligible(now, lastCheckin) ==> IsCheckinEligible(later, lastCheckin)
  {
  }

  // ---------------------------------------------------------------------
  // Remaining time

  /** A whole number of seconds split into days, hours, minutes and seconds. */
  datatype Span = Span(days: nat, hours: nat, minutes: nat, seconds: nat)

  predicate InRange(p: Span) {
    p.hours < 24 && p.minutes < 60 && p.seconds < 60
  }

  function TotalSeconds(p: Span): nat {
    p.days * 86400 + p.hours * 3600 + p.minutes * 60 + p.seconds
  }

  /** The four fields getRemainingTime computes from the remaining
      milliseconds, each taken modulo the next larger unit. */
  function Decompose(ms: nat): (p: Span)
    ensures InRange(p)
  {
    Span(ms / MsPerDay, (ms / MsPerHour) % 24, (ms / MsPerMinute) % 60, (ms / MsPerSecond) % 60)
  }

  /** Integer division is the floor: x / d is the q with q * d <= x < (q + 1) * d. */
  lemma DivIsFloor(x: int, d: int, q: int)
    requires d > 0 && q * d <= x < q * d + d
    ensures x / d == q
  {
    var q' := x / d;
    assert q' * d <= x < q' * d + d;
    if q' < q {
      MulLeft(q' + 1, q, d);
    } else if q' > q {
      MulLeft(q + 1, q', d);
    }
  }

  lemma MulLeft(a: int, b: int, c: int)
    requires a <= b && c >= 0
    ensures a * c <= b * c
  {
    assert b * c - a * c == (b - a) * c;
  }

  /** Quotient and remainder are determined by x == q * d + r with 0 <= r < d. */
  lemma DivModOf(x: int, d: int, q: int, r: int)
    requires d > 0 && 0 <= r < d && x == q * d + r
    ensures x / d == q && x % d == r
  {
    DivIsFloor(x, d, q);
  }

  /** Dividing by a then by b is dividing by a * b. */
  lemma DivDiv(x: nat, a: nat, b: nat)
    requires a > 0 && b > 0
    ensures (x / a) / b == x / (a * b)
  {
    var q := (x / a) / b;
    var r1 := x % a;
    var r2 := (x / a) % b;
    assert x == (q * b + r2) * a + r1;
    assert (q * b + r2) * a + r1 == q * (a * b) + (r2 * a + r1);
    MulLeft(r2, b - 1, a);
    assert r2 * a + r1 < a * b;
    DivModOf(x, a * b, q, r2 * a + r1);
  }

  /** The fields add up to the whole seconds remaining. */
  lemma DecomposeTotal(ms: nat)
    ensures TotalSeconds(Decompose(ms)) == ms / MsPerSecond
  {
    var t := ms / 1000;
    var m := t / 60;
    var h := m / 60;
    var d := h / 24;
    DivDiv(ms, 1000, 60);
    DivDiv(t, 60, 60);
    DivDiv(ms, 1000, 3600);
    DivDiv(h, 1, 24);
    DivDiv(t, 3600, 24);
    DivDiv(ms, 1000, 86400);
    assert ms / MsPerMinute == m && ms / MsPerHour == h && ms / MsPerDay == d;
    assert t == m * 60 + t % 60;
    assert m == h * 60 + m % 60;
    assert h == d * 24 + h % 24;
  }

  /** Decompose is the only in-range split of the whole seconds remaining. */
  lemma DecomposeUnique(ms: nat, p: Span)
    requires InRange(p) && TotalSeconds(p) == ms / MsPerSecond
    ensures p == Decompose(ms)
  {
    var t := ms / 1000;
    var minutes := p.days * 1440 + p.hours * 60 + p.minutes;
    var hours := p.days * 24 + p.hours;
    DivModOf(t, 60, minutes, p.seconds);
    DivModOf(minutes, 60, hours, p.minutes);
    DivModOf(hours, 24, p.days, p.hours);
    DivDiv(ms, 1000, 60);
    DivDiv(t, 60, 60);
    DivDiv(ms, 1000, 3600);
    DivDiv(t, 3600, 24);
    DivDiv(ms, 1000, 86400);
  }

  /** The field of one larger unit: omitted when zero, plural only above one,
      followed by the ", " separator. */
  function UnitField(v: nat, unit: string): string {
    if v > 0 then NatToString(v) + " " + unit + (if v > 1 then "s" else "") + ", " else ""
  }

  /** The seconds field: always present, singular exactly when the value is 1. */
  function SecondsField(s: nat): (r: string)
    ensures var w := if s == 1 then "second" else "seconds";
      |w| < |r| && r[|r| - |w|..] == w
    ensures r[|r| - 1] == 'd' || r[|r| - 1] == 's'
  {
    var w := if s == 1 then "second" else "seconds";
    var r := NatToString(s) + " " + w;
    assert w == "second" + (if s != 1 then "s" else "");
    assert r[|r| - |w|..] == w;
    r
  }

  /** The rendered fields; the text always ends with the seconds field. */
  function FormatSpan(p: Span): (r: string)
    ensures var f := SecondsField(p.seconds); |f| <= |r| && r[|r| - |f|..] == f
  {
    var prefix := UnitField(p.days, "day") + UnitField(p.hours, "hour") + UnitField(p.minutes, "minute");
    var f := SecondsField(p.seconds);
    assert (prefix + f)[|prefix|..] == f;
    prefix + f
  }

  /** getRemainingTime: "none" when nothing remains, otherwise the fields of
      the remaining time. */
  function RemainingTime(end: int, now: int): (r: string)
    ensures r == "none" <==> end - now <= 0
  {
    var ms := end - now;
    if ms <= 0 then "none"
    else
      var p := Decompose(ms);
      var r := FormatSpan(p);
      var f := SecondsField(p.seconds);
      assert r[|r| - 1] == r[|r| - |f|..][|f| - 1] == f[|f| - 1];
      r
  }

  /** A positive remaining time always ends with its seconds field. */
  lemma RemainingTimeEndsWithSeconds(end: int, now: int)
    requires end - now > 0
    ensures var r := RemainingTime(end, now);
      var f := SecondsField(Decompose(end - now).seconds);
      |f| <= |r| && r[|r| - |f|..] == f
  {
    assert RemainingTime(end, now) == FormatSpan(Decompose(end - now));
  }

  /** One day, one hour, one minute and one second (plus 999 ms) left. */
  lemma RemainingTimeExample()
    ensures RemainingTime(90061999, 0) == "1 day, " + "1 hour, " + "1 minute, " + "1 second"
    ensures RemainingTime(5, 5) == "none"
  {
    assert Decompose(90061999) == Span(1, 1, 1, 1);
    FormatSingularSpan();
  }

  // ---------------------------------------------------------------------
  // Reading a rendered duration back

  /** One "<value> <unit word>" field of a rendered duration. */
  datatype Item = Item(value: nat, word: string)

  /** Length of the longest prefix of s made of decimal digits. */
  function DigitRun(s: string): (n: nat)
    ensures n <= |s|
    ensures forall i :: 0 <= i < n ==> IsDigit(s[i])
    ensures n < |s| ==> !IsDigit(s[n])
  {
    if s != [] && IsDigit(s[0]) then 1 + DigitRun(s[1..]) else 0
  }

  /** Length of the longest prefix of s made of lower-case letters. */
  function WordRun(s: string): (n: nat)
    ensures n <= |s|
    ensures forall i :: 0 <= i < n ==> IsLowerLetter(s[i])
    ensures n < |s| ==> !IsLowerLetter(s[n])
  {
    if s != [] && IsLowerLetter(s[0]) then 1 + WordRun(s[1..]) else 0
  }

  /** Reads one field "<digits> <lower-case word>" at the front of s and
      returns it with the text after the word. */
  function ParseField(s: string): (r: Option<(Item, string)>)
    ensures r.Some? ==> |r.value.1| < |s|
  {
    var i := DigitRun(s);
    if i == 0 || i == |s| || s[i] != ' ' then None
    else
      var rest := s[i + 1..];
      var j := WordRun(rest);
      if j == 0 then None else Some((Item(ParseNat(s[..i]), rest[..j]), rest[j..]))
  }

  /** Splits a rendered duration into its fields: one field, then either the
      end or ", " and more fields. */
  function ParseItems(s: string): Option<seq<Item>>
    decreases |s|
  {
    match ParseField(s)
    case None => None
    case Some((it, after)) =>
      if after == [] then Some([it])
      else if |after| >= 2 && after[..2] == ", " then
        match ParseItems(after[2..])
        case Some(items) => Some([it] + items)
        case None => None
      else None
  }

  /** Adds one field to a span, by the initial of its unit word; the partner
      of UnitField and SecondsField. */
  function AddItem(p: Span, it: Item): Span {
    if it.word == [] then p
    else if it.word[0] == 'd' then p.(days := it.value)
    else if it.word[0] == 'h' then p.(hours := it.value)
    else if it.word[0] == 'm' then p.(minutes := it.value)
    else p.(seconds := it.value)
  }

  function SpanOfItems(items: seq<Item>): Span {
    if items == [] then Span(0, 0, 0, 0) else AddItem(SpanOfItems(items[..|items| - 1]), items[|items| - 1])
  }

  /** Reads a rendered duration back into its fields. */
  function ParseSpan(s: string): Option<Span> {
    match ParseItems(s)
    case Some(items) => Some(SpanOfItems(items))
    case None => None
  }

  lemma DigitRunConcat(a: string, b: string)
    requires AllDigits(a)
    requires b != [] ==> !IsDigit(b[0])
    ensures DigitRun(a + b) == |a|
  {
    assert forall i :: 0 <= i < |a| ==> (a + b)[i] == a[i];
    assert b != [] ==> (a + b)[|a|] == b[0];
  }

  lemma WordRunConcat(a: string, b: string)
    requires forall i :: 0 <= i < |a| ==> IsLowerLetter(a[i])
    requires b != [] ==> !IsLowerLetter(b[0])
    ensures WordRun(a + b) == |a|
  {
    assert forall i :: 0 <= i < |a| ==> (a + b)[i] == a[i];
    assert b != [] ==> (a + b)[|a|] == b[0];
  }

  predicate IsWord(w: string) {
    w != [] && forall i :: 0 <= i < |w| ==> IsLowerLetter(w[i])
  }

  /** A field "<digits> <word>" followed by text that does not continue
      the word reads as one item. */
  lemma ParseFieldOf(d: string, w: string, after: string)
    requires d != [] && AllDigits(d) && IsWord(w)
    requires after != [] ==> !IsLowerLetter(after[0])
    ensures ParseField(d + " " + w + after) == Some((Item(ParseNat(d), w), after))
  {
    var rest := w + after;
    var s := d + ([' '] + rest);
    assert d + " " + w + after == s;
    DigitRunConcat(d, [' '] + rest);
    assert s[..|d|] == d;
    assert s[|d|] == ' ';
    assert s[|d| + 1..] == rest;
    WordRunConcat(w, after);
    assert rest[..|w|] == w;
    assert rest[|w|..] == after;
  }

  /** The last field "<v> <w>" reads as Item(v, w). */
  lemma ParseLastField(v: nat, w: string)
    requires IsWord(w)
    ensures ParseItems(NatToString(v) + " " + w) == Some([Item(v, w)])
  {
    ParseFieldOf(NatToString(v), w, []);
    assert NatToString(v) + " " + w + [] == NatToString(v) + " " + w;
    ParseNatToString(v);
  }

  /** A field "<v> <w>, " in front of a readable tail reads as Item(v, w)
      in front of the tail's items. */
  lemma ParseInnerField(v: nat, w: string, tail: string, items: seq<Item>)
    requires IsWord(w) && ParseItems(tail) == Some(items)
    ensures ParseItems(NatToString(v) + " " + w + ", " + tail) == Some([Item(v, w)] + items)
  {
    var after := ", " + tail;
    ParseFieldOf(NatToString(v), w, after);
    assert NatToString(v) + " " + w + ", " + tail == NatToString(v) + " " + w + after;
    assert after[..2] == ", " && after[2..] == tail;
    ParseNatToString(v);
  }

  /** The item a larger unit's field renders: none when the value is zero. */
  function UnitItems(v: nat, unit: string): seq<Item> {
    if v > 0 then [Item(v, unit + (if v > 1 then "s" else ""))] else []
  }

  function SecondsItem(s: nat): Item {
    Item(s, "second" + (if s != 1 then "s" else ""))
  }

  /** The items FormatSpan renders, in order. */
  function Items(p: Span): seq<Item> {
    UnitItems(p.days, "day") + (UnitItems(p.hours, "hour") + (UnitItems(p.minutes, "minute") + [SecondsItem(p.seconds)]))
  }

  lemma ParseSecondsField(s: nat)
    ensures ParseItems(SecondsField(s)) == Some([SecondsItem(s)])
  {
    var w := "second" + (if s != 1 then "s" else "");
    assert SecondsField(s) == NatToString(s) + " " + w;
    ParseLastField(s, w);
  }

  lemma UnitFieldShape(v: nat, unit: string, tail: string)
    requires v > 0
    ensures UnitField(v, unit) + tail == NatToString(v) + " " + (unit + (if v > 1 then "s" else "")) + ", " + tail
  {
  }

  lemma PluralIsWord(v: nat, unit: string)
    requires IsWord(unit)
    ensures IsWord(unit + (if v > 1 then "s" else ""))
  {
  }

  lemma ParseUnitField(v: nat, unit: string, tail: string, items: seq<Item>)
    requires IsWord(unit) && ParseItems(tail) == Some(items)
    ensures ParseItems(UnitField(v, unit) + tail) == Some(UnitItems(v, unit) + items)
  {
    if v > 0 {
      var w := unit + (if v > 1 then "s" else "");
      PluralIsWord(v, unit);
      UnitFieldShape(v, unit, tail);
      ParseInnerField(v, w, tail, items);
    } else {
      assert UnitField(v, unit) + tail == tail;
      assert UnitItems(v, unit) + items == items;
    }
  }

  lemma FormatSpanShape(p: Span)
    ensures FormatSpan(p) ==
      UnitField(p.days, "day") + (UnitField(p.hours, "hour") + (UnitField(p.minutes, "minute") + SecondsField(p.seconds)))
  {
  }

  lemma UnitNamesAreWords()
    ensures IsWord("day") && IsWord("hour") && IsWord("minute")
  {
  }

  /** Reading a rendered span yields exactly the fields that were rendered. */
  lemma ParseFormatItems(p: Span)
    ensures ParseItems(FormatSpan(p)) == Some(Items(p))
  {
    var sec := SecondsField(p.seconds);
    var m := UnitField(p.minutes, "minute") + sec;
    var h := UnitField(p.hours, "hour") + m;
    FormatSpanShape(p);
    UnitNamesAreWords();
    ParseSecondsField(p.seconds);
    ParseUnitField(p.minutes, "minute", sec, [SecondsItem(p.seconds)]);
    ParseUnitField(p.hours, "hour", m, UnitItems(p.minutes, "minute") + [SecondsItem(p.seconds)]);
    ParseUnitField(p.days, "day", h, UnitItems(p.hours, "hour") + (UnitItems(p.minutes, "minute") + [SecondsItem(p.seconds)]));
  }

  lemma SpanOfItemsSnoc(items: seq<Item>, it: Item)
    ensures SpanOfItems(items + [it]) == AddItem(SpanOfItems(items), it)
  {
    assert (items + [it])[..|items + [it]| - 1] == items;
  }

  lemma SpanOfItemsAppendUnit(xs: seq<Item>, v: nat, unit: string)
    requires unit != []
    ensures SpanOfItems(xs + UnitItems(v, unit)) ==
      if v == 0 then SpanOfItems(xs) else AddItem(SpanOfItems(xs), Item(v, unit + (if v > 1 then "s" else "")))
  {
    if v == 0 {
      assert xs + UnitItems(v, unit) == xs;
    } else {
      SpanOfItemsSnoc(xs, Item(v, unit + (if v > 1 then "s" else "")));
    }
  }

  lemma InitialOfPlural(unit: string, v: nat)
    requires unit != []
    ensures (unit + (if v > 1 then "s" else ""))[0] == unit[0]
    ensures (unit + (if v != 1 then "s" else ""))[0] == unit[0]
  {
  }

  lemma ItemsShape(p: Span)
    ensures Items(p) == UnitItems(p.days, "day") + UnitItems(p.hours, "hour")
      + UnitItems(p.minutes, "minute") + [SecondsItem(p.seconds)]
  {
  }

  lemma SpanOfDays(p: Span)
    ensures SpanOfItems(UnitItems(p.days, "day")) == Span(p.days, 0, 0, 0)
  {
    InitialOfPlural("day", p.days);
    SpanOfItemsAppendUnit([], p.days, "day");
    assert [] + UnitItems(p.days, "day") == UnitItems(p.days, "day");
  }

  lemma SpanOfHours(p: Span)
    ensures SpanOfItems(UnitItems(p.days, "day") + UnitItems(p.hours, "hour")) == Span(p.days, p.hours, 0, 0)
  {
    SpanOfDays(p);
    InitialOfPlural("hour", p.hours);
    SpanOfItemsAppendUnit(UnitItems(p.days, "day"), p.hours, "hour");
  }

  lemma SpanOfMinutes(p: Span)
    ensures SpanOfItems(UnitItems(p.days, "day") + UnitItems(p.hours, "hour") + UnitItems(p.minutes, "minute"))
      == Span(p.days, p.hours, p.minutes, 0)
  {
    SpanOfHours(p);
    InitialOfPlural("minute", p.minutes);
    SpanOfItemsAppendUnit(UnitItems(p.days, "day") + UnitItems(p.hours, "hour"), p.minutes, "minute");
  }

  /** Adding up the rendered items gives back the span. */
  lemma SpanOfItemsOf(p: Span)
    ensures SpanOfItems(Items(p)) == p
  {
    var xs := UnitItems(p.days, "day") + UnitItems(p.hours, "hour") + UnitItems(p.minutes, "minute");
    ItemsShape(p);
    SpanOfMinutes(p);
    InitialOfPlural("second", p.seconds);
    SpanOfItemsSnoc(xs, SecondsItem(p.seconds));
  }

  /** The rendering is read back to the span it came from. */
  lemma ParseFormatSpan(p: Span)
    ensures ParseSpan(FormatSpan(p)) == Some(p)
  {
    ParseFormatItems(p);
    SpanOfItemsOf(p);
  }

  /** The rendered text reads back as one field per non-zero larger unit,
      then the seconds field, singular exactly at one. */
  lemma RenderedFieldCount(p: Span)
    ensures ParseItems(FormatSpan(p)).Some?
    ensures var items := ParseItems(FormatSpan(p)).value;
      && |items| == 1 + (if p.days > 0 then 1 else 0) + (if p.hours > 0 then 1 else 0) + (if p.minutes > 0 then 1 else 0)
      && items[|items| - 1] == Item(p.seconds, if p.seconds == 1 then "second" else "seconds")
  {
    ParseFormatItems(p);
    ItemsShape(p);
    assert "second" + "" == "second";
  }

  /** The rendered text holds a field for each of days, hours and minutes
      exactly when that value is not zero, singular at one and plural above
      one. */
  lemma RenderedFields(p: Span)
    ensures ParseItems(FormatSpan(p)).Some?
    ensures var items := ParseItems(FormatSpan(p)).value;
      && (Item(p.days, "day") in items <==> p.days == 1)
      && (Item(p.days, "days") in items <==> p.days > 1)
      && (Item(p.hours, "hour") in items <==> p.hours == 1)
      && (Item(p.hours, "hours") in items <==> p.hours > 1)
      && (Item(p.minutes, "minute") in items <==> p.minutes == 1)
      && (Item(p.minutes, "minutes") in items <==> p.minutes > 1)
  {
    ParseFormatItems(p);
    ItemsPresence(p);
  }

  lemma ItemsPresence(p: Span)
    ensures var items := Items(p);
      && (Item(p.days, "day") in items <==> p.days == 1)
      && (Item(p.days, "days") in items <==> p.days > 1)
      && (Item(p.hours, "hour") in items <==> p.hours == 1)
      && (Item(p.hours, "hours") in items <==> p.hours > 1)
      && (Item(p.minutes, "minute") in items <==> p.minutes == 1)
      && (Item(p.minutes, "minutes") in items <==> p.minutes > 1)
  {
    ItemsShape(p);
    var dd := UnitItems(p.days, "day");
    var hh := UnitItems(p.hours, "hour");
    var mm := UnitItems(p.minutes, "minute");
    var ss := [SecondsItem(p.seconds)];
    InitialOfPlural("second", p.seconds);
    assert NoneStartsWith(ss, 'd') && NoneStartsWith(ss, 'h') && NoneStartsWith(ss, 'm');
    UnitItemsInitial(p.days, "day", 'h');
    UnitItemsInitial(p.days, "day", 'm');
    UnitItemsInitial(p.hours, "hour", 'd');
    UnitItemsInitial(p.hours, "hour", 'm');
    UnitItemsInitial(p.minutes, "minute", 'd');
    UnitItemsInitial(p.minutes, "minute", 'h');
    NoneStartsWithConcat(hh, mm + ss, 'd');
    NoneStartsWithConcat(mm, ss, 'd');
    NoneStartsWithConcat(mm, ss, 'h');
    NoneStartsWithConcat(dd, [], 'h');
    NoneStartsWithConcat(dd, hh, 'm');
    var items := Items(p);
    assert items == dd + hh + mm + ss;
    assert "day" + "s" == "days" && "hour" + "s" == "hours" && "minute" + "s" == "minutes";
    FieldPresence([], hh + mm + ss, p.days, "day");
    assert [] + dd + (hh + mm + ss) == items;
    FieldPresence(dd, mm + ss, p.hours, "hour");
    assert dd + hh + (mm + ss) == items;
    FieldPresence(dd + hh, ss, p.minutes, "minute");
  }

  /** No item in xs has a unit word starting with c. */
  predicate NoneStartsWith(xs: seq<Item>, c: char) {
    forall x :: x in xs ==> x.word == [] || x.word[0] != c
  }

  lemma NoneStartsWithConcat(xs: seq<Item>, ys: seq<Item>, c: char)
    requires NoneStartsWith(xs, c) && NoneStartsWith(ys, c)
    ensures NoneStartsWith(xs + ys, c)
  {
  }

  lemma UnitItemsInitial(v: nat, unit: string, c: char)
    requires unit != [] && unit[0] != c
    ensures NoneStartsWith(UnitItems(v, unit), c)
  {
    InitialOfPlural(unit, v);
  }

  /** Between items of other units, a unit's field is present, singular at
      one and plural above one. */
  lemma FieldPresence(pre: seq<Item>, post: seq<Item>, v: nat, unit: string)
    requires unit != [] && NoneStartsWith(pre, unit[0]) && NoneStartsWith(post, unit[0])
    ensures var items := pre + UnitItems(v, unit) + post;
      && (Item(v, unit) in items <==> v == 1)
      && (Item(v, unit + "s") in items <==> v > 1)
  {
    var items := pre + UnitItems(v, unit) + post;
    assert Item(v, unit) !in pre && Item(v, unit) !in post;
    assert (unit + "s")[0] == unit[0];
    assert Item(v, unit + "s") !in pre && Item(v, unit + "s") !in post;
    assert |unit + "s"| != |unit|;
    assert unit + "" == unit;
    assert forall x :: x in items <==> x in pre || x in UnitItems(v, unit) || x in post;
    if v == 0 {
      assert UnitItems(v, unit) == [];
    } else if v == 1 {
      assert UnitItems(v, unit) == [Item(v, unit)];
    } else {
      assert UnitItems(v, unit) == [Item(v, unit + "s")];
    }
  }

  /** Two different remaining whole-second counts never render alike: the
      text getRemainingTime returns determines the seconds left. */
  lemma RemainingTimeDeterminesSeconds(end1: int, now1: int, end2: int, now2: int)
    requires end1 - now1 > 0 && end2 - now2 > 0
    requires RemainingTime(end1, now1) == RemainingTime(end2, now2)
    ensures (end1 - now1) / MsPerSecond == (end2 - now2) / MsPerSecond
  {
    var p1 := Decompose(end1 - now1);
    var p2 := Decompose(end2 - now2);
    ParseFormatSpan(p1);
    ParseFormatSpan(p2);
    DecomposeTotal(end1 - now1);
    DecomposeTotal(end2 - now2);
  }

  /** Nothing but seconds left: the seconds field alone, plural for zero. */
  lemma FormatZeroSpan()
    ensures FormatSpan(Span(0, 0, 0, 0)) == "0 seconds"
  {
    assert NatToString(0) == "0";
  }

  /** A larger unit's field at one is singular. */
  lemma UnitFieldOne(unit: string)
    ensures UnitField(1, unit) == "1 " + unit + ", "
  {
    assert NatToString(1) == "1";
  }

  /** A larger unit's field above one is plural. */
  lemma UnitFieldPlural(v: nat, unit: string)
    requires v > 1
    ensures UnitField(v, unit) == NatToString(v) + " " + unit + "s, "
  {
  }

  /** All four fields at one: every unit singular. */
  lemma FormatSingularSpan()
    ensures FormatSpan(Span(1, 1, 1, 1)) == "1 day, " + "1 hour, " + "1 minute, " + "1 second"
  {
    UnitFieldOne("day");
    UnitFieldOne("hour");
    UnitFieldOne("minute");
    assert SecondsField(1) == "1 second" by { assert NatToString(1) == "1"; }
  }

  /** A zero hours field is omitted; values above one take the plural. */
  lemma FormatOmitsZeroHours()
    ensures FormatSpan(Span(2, 0, 5, 1)) == "2 days, " + "5 minutes, " + "1 second"
  {
    UnitFieldPlural(2, "day");
    UnitFieldPlural(5, "minute");
    assert NatToString(2) == "2" && NatToString(5) == "5";
    assert UnitField(0, "hour") == "";
    assert SecondsField(1) == "1 second" by { assert NatToString(1) == "1"; }
  }

  // ---------------------------------------------------------------------
  // Random draws

  /** Math.random() is taken to return k / RandomScale for a draw k in
      [0, RandomScale): a 53-bit fraction in [0, 1). */
  const RandomScale: nat := 0x20_0000_0000_0000

  predicate IsDraw(k: nat) {
    k < RandomScale
  }

  /** Math.floor(Math.random() * n) for the draw k, in exact arithmetic. */
  function ScaledDraw(k: nat, n: nat): nat
    requires IsDraw(k)
  {
    (k * n) / RandomScale
  }

  lemma ScaledDrawBelow(k: nat, n: nat)
    requires IsDraw(k)
    ensures n > 0 ==> ScaledDraw(k, n) < n
    ensures n == 0 ==> ScaledDraw(k, n) == 0
  {
    if n > 0 {
      assert k * n <= (RandomScale - 1) * n by {
        assert RandomScale - 1 - k >= 0;
        assert (RandomScale - 1 - k) * n >= 0;
      }
      assert k * n < RandomScale * n;
    }
  }

  /** The smallest k with k * n >= i * scale draws index i. */
  lemma FloorReaches(i: nat, n: nat, scale: nat)
    requires i < n <= scale
    ensures var k := (i * scale + n - 1) / n; k < scale && (k * n) / scale == i
  {
    var a := i * scale + n - 1;
    var k := a / n;
    assert k * n <= a < k * n + n;
    assert i * scale <= k * n;
    assert k * n < i * scale + scale;
    MulLeft(i + 1, n, scale);
    assert i * scale + scale == (i + 1) * scale;
    DivIsFloor(k * n, scale, i);
    if k >= scale {
      MulLeft(scale, k, n);
    }
  }

  /** Every index below n (n at most RandomScale) is drawn by some k. */
  lemma ScaledDrawReaches(i: nat, n: nat)
    requires i < n <= RandomScale
    ensures exists k :: IsDraw(k) && ScaledDraw(k, n) == i
  {
    FloorReaches(i, n, RandomScale);
    var k := (i * RandomScale + n - 1) / n;
    assert IsDraw(k) && ScaledDraw(k, n) == i;
  }

  /** getRandomAnimal: the index drawn into a non-empty list of labels. */
  function RandomAnimalIndex(k: nat, count: nat): (i: nat)
    requires IsDraw(k) && count > 0
    ensures i < count
  {
    ScaledDrawBelow(k, count);
    ScaledDraw(k, count)
  }

  const MinTransformMinutes: nat := 2
  const MaxTransformMinutes: nat := 7 * 24 * 60

  /** getRandomTransformDuration: a whole number of minutes between 2 and one
      week inclusive, in milliseconds. */
  function RandomTransformDuration(k: nat): (ms: nat)
    requires IsDraw(k)
    ensures MinTransformMinutes * MsPerMinute <= ms <= MaxTransformMinutes * MsPerMinute
    ensures ms % MsPerMinute == 0
  {
    ScaledDrawBelow(k, MaxTransformMinutes - MinTransformMinutes + 1);
    (ScaledDraw(k, MaxTransformMinutes - MinTransformMinutes + 1) + MinTransformMinutes) * MsPerMinute
  }

  /** Every whole number of minutes in the range is a possible duration. */
  lemma RandomTransformDurationReaches(minutes: nat)
    requires MinTransformMinutes <= minutes <= MaxTransformMinutes
    ensures exists k :: IsDraw(k) && RandomTransformDuration(k) == minutes * MsPerMinute
  {
    ScaledDrawReaches(minutes - MinTransformMinutes, MaxTransformMinutes - MinTransformMinutes + 1);
    var k :| IsDraw(k) && ScaledDraw(k, MaxTransformMinutes - MinTransformMinutes + 1) == minutes - MinTransformMinutes;
    assert RandomTransformDuration(k) == minutes * MsPerMinute;
  }
}
