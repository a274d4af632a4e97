/**
 * The account-age text of the member-join log
 * (mothy_events/src/join_leave/mod.rs): the date-time fields of an elapsed
 * time are listed as "Years y, Months m, ...", keeping at most the first
 * three non-zero ones.
 */
module JoinLeave {
  import opened Text

  /** The fields of a chrono `DateTime<Utc>`; the year is an `i32` and may be zero or negative. */
  datatype DateTimeFields = DateTimeFields(year: int, month: nat, day: nat, hour: nat, minute: nat, second: nat)

  datatype Unit = Years | Months | Days | Hours | Minutes | Seconds

  /** One labelled field, such as `Days 3`; a year at or below zero is never shown and counts as zero. */
  datatype Component = Component(unit: Unit, value: nat)

  /** The text in front of a field's value. */
  function UnitPrefix(u: Unit): string
  {
    match u
    case Years => "Years "
    case Months => "Months "
    case Days => "Days "
    case Hours => "Hours "
    case Minutes => "Minutes "
    case Seconds => "Seconds "
  }

  /** The place of a unit in the listing order, largest unit first. */
  function Rank(u: Unit): nat
  {
    match u
    case Years => 0
    case Months => 1
    case Days => 2
    case Hours => 3
    case Minutes => 4
    case Seconds => 5
  }

  /** Every field, in the order the source examines them. */
  function Components(dt: DateTimeFields): (cs: seq<Component>)
    ensures |cs| == 6
    ensures forall i :: 0 <= i < 6 ==> Rank(cs[i].unit) == i
  {
    [Component(Years, if dt.year > 0 then dt.year else 0), Component(Months, dt.month), Component(Days, dt.day),
     Component(Hours, dt.hour), Component(Minutes, dt.minute), Component(Seconds, dt.second)]
  }

  /** The components with a value above zero, in their original order. */
  function Positive(cs: seq<Component>): (r: seq<Component>)
    ensures |r| <= |cs|
    decreases |cs|
  {
    if |cs| == 0 then []
    else Positive(cs[..|cs| - 1]) + (if cs[|cs| - 1].value > 0 then [cs[|cs| - 1]] else [])
  }

  /** The positive components are exactly the members above zero. */
  lemma {:induction false} PositiveMembers(cs: seq<Component>)
    ensures forall c :: c in Positive(cs) <==> c in cs && c.value > 0
    decreases |cs|
  {
    if |cs| > 0 {
      PositiveMembers(cs[..|cs| - 1]);
      assert cs == cs[..|cs| - 1] + [cs[|cs| - 1]];
    }
  }

  /** Components that are all zero keep nothing. */
  lemma {:induction false} NothingPositive(cs: seq<Component>)
    requires forall i :: 0 <= i < |cs| ==> cs[i].value == 0
    ensures Positive(cs) == []
    decreases |cs|
  {
    if |cs| > 0 {
      NothingPositive(cs[..|cs| - 1]);
    }
  }

  /** One more component: it is kept when above zero. */
  lemma PositiveSnoc(cs: seq<Component>, k: nat)
    requires k < |cs|
    ensures Positive(cs[..k + 1]) == Positive(cs[..k]) + (if cs[k].value > 0 then [cs[k]] else [])
  {
    assert cs[..k + 1][..k] == cs[..k];
  }

  /** `datetime_strings.truncate(3)`. */
  function Truncate3(cs: seq<Component>): (r: seq<Component>)
    ensures |r| <= 3
    ensures |r| == if |cs| < 3 then |cs| else 3
    ensures r == cs[..|r|]
  {
    if |cs| > 3 then cs[..3] else cs
  }

  /** The components that are shown. */
  function Kept(dt: DateTimeFields): seq<Component>
  {
    Truncate3(Positive(Components(dt)))
  }

  /** `format!("Days {}", day)`. */
  function Label(c: Component): (s: string)
    ensures |s| > 0
  {
    UnitPrefix(c.unit) + NatToString(c.value)
  }

  /** The label of each component, in order. */
  function Labels(cs: seq<Component>): seq<string>
  {
    seq(|cs|, i requires 0 <= i < |cs| => Label(cs[i]))
  }

  /** The text `truncate_datetime_string` returns. */
  function TruncatedText(dt: DateTimeFields): string
  {
    Join(Labels(Kept(dt)), ", ")
  }

  /** The label a component contributes: one when it is above zero, none otherwise. */
  function LabelIfPositive(c: Component): (r: seq<string>)
    ensures |r| <= 1
  {
    if c.value > 0 then [Label(c)] else []
  }

  /** The labels pushed while walking the components in order. */
  function Pushed(cs: seq<Component>): (r: seq<string>)
    decreases |cs|
  {
    if |cs| == 0 then [] else Pushed(cs[..|cs| - 1]) + LabelIfPositive(cs[|cs| - 1])
  }

  /** One more component adds its label when it is above zero. */
  lemma PushStep(seen: seq<Component>, c: Component)
    ensures Pushed(seen + [c]) == Pushed(seen) + LabelIfPositive(c)
  {
    assert (seen + [c])[..|seen|] == seen;
  }

  /** Pushing the label of every positive component labels the positive components. */
  lemma {:induction false} PushedLabelsPositive(cs: seq<Component>)
    ensures Pushed(cs) == Labels(Positive(cs))
    decreases |cs|
  {
    if |cs| > 0 {
      var init := cs[..|cs| - 1];
      PushedLabelsPositive(init);
      var p := Positive(cs);
      if cs[|cs| - 1].value > 0 {
        assert p[..|p| - 1] == Positive(init);
      }
    }
  }

  /** Cutting the labels to three is labelling the first three components. */
  lemma TruncateStep(p: seq<Component>, strings: seq<string>)
    requires strings == Labels(p)
    ensures Labels(Truncate3(p)) == if |strings| > 3 then strings[..3] else strings
  {
  }

  /** Once every field is pushed, cutting to three and joining gives the text. */
  lemma FinishStep(dt: DateTimeFields, strings: seq<string>)
    requires strings == Pushed(Components(dt))
    ensures Join(if |strings| > 3 then strings[..3] else strings, ", ") == TruncatedText(dt)
    ensures TruncatedText(dt) == "" <==> dt.year <= 0 && dt.month == 0 && dt.day == 0 && dt.hour == 0 && dt.minute == 0 && dt.second == 0
  {
    PushedLabelsPositive(Components(dt));
    TruncateStep(Positive(Components(dt)), strings);
    EmptyIffNothingPositive(dt);
  }

  /** `if value > 0 { datetime_strings.push(format!("<Unit> {}", value)) }`. */
  method PushIfPositive(strings: seq<string>, c: Component) returns (r: seq<string>)
    ensures r == strings + LabelIfPositive(c)
    ensures c.value > 0 ==> |r| == |strings| + 1 && r[|strings|] == UnitPrefix(c.unit) + NatToString(c.value)
  {
    r := strings;
    if c.value > 0 {
      r := r + [UnitPrefix(c.unit) + NatToString(c.value)];
    }
  }

  /**
   * The pushing half of `truncate_datetime_string`: a label is pushed for
   * each field above zero, in the order years, months, days, hours,
   * minutes, seconds.
   */
  method PushPositiveFields(dt: DateTimeFields) returns (strings: seq<string>)
    ensures strings == Pushed(Components(dt))
  {
    strings := [];
    ghost var seen: seq<Component> := [];
    PushStep(seen, Component(Years, if dt.year > 0 then dt.year else 0));
    strings := PushIfPositive(strings, Component(Years, if dt.year > 0 then dt.year else 0));
    seen := seen + [Component(Years, if dt.year > 0 then dt.year else 0)];
    PushStep(seen, Component(Months, dt.month));
    strings := PushIfPositive(strings, Component(Months, dt.month));
    seen := seen + [Component(Months, dt.month)];
    PushStep(seen, Component(Days, dt.day));
    strings := PushIfPositive(strings, Component(Days, dt.day));
    seen := seen + [Component(Days, dt.day)];
    PushStep(seen, Component(Hours, dt.hour));
    strings := PushIfPositive(strings, Component(Hours, dt.hour));
    seen := seen + [Component(Hours, dt.hour)];
    PushStep(seen, Component(Minutes, dt.minute));
    strings := PushIfPositive(strings, Component(Minutes, dt.minute));
    seen := seen + [Component(Minutes, dt.minute)];
    PushStep(seen, Component(Seconds, dt.second));
    strings := PushIfPositive(strings, Component(Seconds, dt.second));
    seen := seen + [Component(Seconds, dt.second)];
    assert seen == Components(dt);
  }

  /**
   * `truncate_datetime_string`: the pushed labels are cut to three and
   * joined with ", ". The text is empty exactly when no field is above zero.
   */
  method TruncateDatetimeString(dt: DateTimeFields) returns (s: string)
    ensures s == TruncatedText(dt)
    ensures s == "" <==> dt.year <= 0 && dt.month == 0 && dt.day == 0 && dt.hour == 0 && dt.minute == 0 && dt.second == 0
  {
    var strings := PushPositiveFields(dt);
    FinishStep(dt, strings);
    if |strings| > 3 {
      strings := strings[..3];
    }
    s := Join(strings, ", ");
  }

  /** The text is empty exactly when no field is above zero. */
  lemma EmptyIffNothingPositive(dt: DateTimeFields)
    ensures TruncatedText(dt) == "" <==> dt.year <= 0 && dt.month == 0 && dt.day == 0 && dt.hour == 0 && dt.minute == 0 && dt.second == 0
  {
    var cs := Components(dt);
    var kept := Kept(dt);
    PositiveMembers(cs);
    if dt.year <= 0 && dt.month == 0 && dt.day == 0 && dt.hour == 0 && dt.minute == 0 && dt.second == 0 {
      NothingPositive(cs);
    } else {
      var k := if dt.year > 0 then 0 else if dt.month > 0 then 1 else if dt.day > 0 then 2
               else if dt.hour > 0 then 3 else if dt.minute > 0 then 4 else 5;
      assert cs[k].value > 0;
      assert cs[k] in Positive(cs);
      assert |kept| > 0;
      var labels := Labels(kept);
      assert |labels[0]| > 0;
      if |labels| > 1 {
        assert Join(labels, ", ") == labels[0] + ", " + Join(labels[1..], ", ");
      }
    }
  }

  /** At most three fields are shown, each one above zero. */
  lemma KeptAtMostThreePositive(dt: DateTimeFields)
    ensures |Kept(dt)| <= 3
    ensures forall c :: c in Kept(dt) ==> c.value > 0
  {
    var p := Positive(Components(dt));
    PositiveMembers(Components(dt));
    forall c | c in Kept(dt) ensures c.value > 0 {
      assert c in p;
    }
  }

  /** The positive components keep the relative order of the fields. */
  lemma {:induction false} PositiveOrdered(cs: seq<Component>)
    requires forall i, j :: 0 <= i < j < |cs| ==> Rank(cs[i].unit) < Rank(cs[j].unit)
    ensures forall i, j :: 0 <= i < j < |Positive(cs)| ==> Rank(Positive(cs)[i].unit) < Rank(Positive(cs)[j].unit)
    decreases |cs|
  {
    if |cs| > 0 {
      var init := cs[..|cs| - 1];
      PositiveOrdered(init);
      PositiveMembers(init);
      var p := Positive(cs);
      forall i, j | 0 <= i < j < |p| ensures Rank(p[i].unit) < Rank(p[j].unit) {
        if j >= |Positive(init)| {
          assert p[j] == cs[|cs| - 1];
          assert p[i] in init;
          var k :| 0 <= k < |init| && init[k] == p[i];
        }
      }
    }
  }

  /**
   * The shown fields are the first three positive ones, in the order
   * years, months, days, hours, minutes, seconds: no field is shown after
   * a smaller unit, and a positive field is left out only when three are
   * already shown.
   */
  lemma KeptAreFirstThree(dt: DateTimeFields)
    ensures Kept(dt) == Positive(Components(dt))[..|Kept(dt)|]
    ensures forall i, j :: 0 <= i < j < |Kept(dt)| ==> Rank(Kept(dt)[i].unit) < Rank(Kept(dt)[j].unit)
    ensures forall c :: c in Components(dt) && c.value > 0 && c !in Kept(dt) ==> |Kept(dt)| == 3
  {
    PositiveOrdered(Components(dt));
    var p := Positive(Components(dt));
    PositiveMembers(Components(dt));
    forall c | c in Components(dt) && c.value > 0 && c !in Kept(dt) ensures |Kept(dt)| == 3 {
      assert c in p;
    }
  }

  // ---------------------------------------------------------------- account age

  /**
   * The fields `get_member_joined_at` passes for an account younger than a
   * day: `DateTime::from_timestamp(t)` falls on 1970-01-01, and the year
   * is then shifted down by 1970. Month and day keep their calendar
   * values, which start at one.
   */
  function AgeUnderADay(t: nat): (dt: DateTimeFields)
    requires t < 86400
    ensures dt.hour * 3600 + dt.minute * 60 + dt.second == t
  {
    DateTimeFields(0, 1, 1, t / 3600, (t % 3600) / 60, t % 60)
  }

  /** The shown components of a one-hour-old account, as written. */
  lemma OneHourOldAccountKept()
    ensures Kept(AgeUnderADay(3600)) == [Component(Months, 1), Component(Days, 1), Component(Hours, 1)]
  {
    var cs := Components(AgeUnderADay(3600));
    var m, d, h := Component(Months, 1), Component(Days, 1), Component(Hours, 1);
    assert cs == [Component(Years, 0), m, d, h, Component(Minutes, 0), Component(Seconds, 0)];
    assert cs[..0] == [];
    PositiveSnoc(cs, 0);
    assert Positive(cs[..1]) == [];
    PositiveSnoc(cs, 1);
    assert Positive(cs[..2]) == [m];
    PositiveSnoc(cs, 2);
    assert Positive(cs[..3]) == [m, d];
    PositiveSnoc(cs, 3);
    assert Positive(cs[..4]) == [m, d, h];
    PositiveSnoc(cs, 4);
    PositiveSnoc(cs, 5);
    assert cs[..6] == cs;
  }

  /** A field of value one reads "<Unit> 1". */
  lemma LabelOfOne(u: Unit)
    ensures Label(Component(u, 1)) == UnitPrefix(u) + "1"
  {
    assert NatToString(1) == [DigitChar(1)];
  }

  /** As written, a one-hour-old account is described as "Months 1, Days 1, Hours 1". */
  lemma OneHourOldAccountAsWritten()
    ensures TruncatedText(AgeUnderADay(3600)) == "Months 1, Days 1, Hours 1"
  {
    OneHourOldAccountKept();
    OneHourLabels();
    JoinThree("Months 1", "Days 1", "Hours 1", ", ");
  }

  /** The labels of month 1, day 1 and hour 1. */
  lemma OneHourLabels()
    ensures Labels([Component(Months, 1), Component(Days, 1), Component(Hours, 1)]) == ["Months 1", "Days 1", "Hours 1"]
  {
    LabelOfOne(Months);
    LabelOfOne(Days);
    LabelOfOne(Hours);
    assert UnitPrefix(Months) + "1" == "Months 1";
    assert UnitPrefix(Days) + "1" == "Days 1";
    assert UnitPrefix(Hours) + "1" == "Hours 1";
  }

  /** Three parts joined: the separator between each two. */
  lemma JoinThree(a: string, b: string, c: string, sep: string)
    ensures Join([a, b, c], sep) == a + sep + b + sep + c
  {
    assert [a, b, c][1..] == [b, c];
    assert [b, c][1..] == [c];
    assert Join([c], sep) == c;
    assert Join([b, c], sep) == b + sep + c;
  }

  /** An elapsed span counts whole months and days from zero: the calendar month and day less one. */
  function Elapsed(dt: DateTimeFields): (e: DateTimeFields)
    requires dt.month >= 1 && dt.day >= 1
    ensures e.month + 1 == dt.month && e.day + 1 == dt.day
    ensures e.year == dt.year && e.hour == dt.hour && e.minute == dt.minute && e.second == dt.second
  {
    dt.(month := dt.month - 1, day := dt.day - 1)
  }

  /** With month and day counted from zero, an account younger than a day shows only hours, minutes and seconds. */
  lemma ElapsedUnderADayShowsClock(t: nat)
    requires t < 86400
    ensures forall c :: c in Kept(Elapsed(AgeUnderADay(t))) ==> Rank(c.unit) >= 3
  {
    var dt := Elapsed(AgeUnderADay(t));
    assert dt.year == 0 && dt.month == 0 && dt.day == 0;
    var cs := Components(dt);
    PositiveMembers(cs);
    forall c | c in Kept(dt) ensures Rank(c.unit) >= 3 {
      assert c in Positive(cs);
      assert c.value > 0;
      assert c != cs[0] && c != cs[1] && c != cs[2];
    }
  }

  /** With month and day counted from zero, a one-hour-old account reads "Hours 1". */
  lemma ElapsedOneHour()
    ensures TruncatedText(Elapsed(AgeUnderADay(3600))) == "Hours 1"
  {
    var dt := Elapsed(AgeUnderADay(3600));
    var cs := Components(dt);
    var h := Component(Hours, 1);
    assert cs == [Component(Years, 0), Component(Months, 0), Component(Days, 0), h, Component(Minutes, 0), Component(Seconds, 0)];
    assert cs[..0] == [];
    PositiveSnoc(cs, 0);
    PositiveSnoc(cs, 1);
    PositiveSnoc(cs, 2);
    assert Positive(cs[..3]) == [];
    PositiveSnoc(cs, 3);
    assert Positive(cs[..4]) == [h];
    PositiveSnoc(cs, 4);
    PositiveSnoc(cs, 5);
    assert cs[..6] == cs;
    assert Kept(dt) == [h];
    LabelOfOne(Hours);
    assert UnitPrefix(Hours) + "1" == "Hours 1";
    assert Labels(Kept(dt)) == ["Hours 1"];
  }
}
