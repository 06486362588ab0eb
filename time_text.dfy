/**
 * The textual compaction the formatter applies to the locale's rendering of a
 * time of day (the hour and minute that toLocaleTimeString gives with
 * hour: '2-digit' and minute: '2-digit'): shortenAmPm, removeLeadingZero and
 * their composition formatTime.
 *
 * The raw locale text is an input here. The lemmas at the end say what the
 * compaction makes of the shapes that locales produce: "hh:mm AM", "hh:mm PM",
 * "HH:mm", and "hh:mm" followed by a narrow no-break space and "AM".
 */
module TimeText {
  import opened Tokens

  /** pat occurs in s starting at index i. */
  predicate MatchAt(s: string, pat: string, i: int) {
    0 <= i && i + |pat| <= |s| && s[i..i + |pat|] == pat
  }

  predicate Occurs(s: string, pat: string) {
    exists i :: 0 <= i <= |s| - |pat| && MatchAt(s, pat, i)
  }

  lemma OccursInTail(s: string, pat: string)
    requires |s| >= 1 && Occurs(s[1..], pat)
    ensures Occurs(s, pat)
  {
    var t := s[1..];
    var i :| 0 <= i <= |t| - |pat| && MatchAt(t, pat, i);
    assert t[i..i + |pat|] == s[i + 1..i + 1 + |pat|];
    assert MatchAt(s, pat, i + 1);
  }

  /**
   * String.prototype.replace with a global regular expression that matches
   * the literal pat: every occurrence, scanned left to right without overlap,
   * is replaced by rep. A replacement no longer than the pattern never
   * lengthens the text, and one of the same length keeps its length.
   */
  function ReplaceAll(s: string, pat: string, rep: string): (r: string)
    requires |pat| > 0
    ensures |rep| <= |pat| ==> |r| <= |s|
    ensures |rep| == |pat| ==> |r| == |s|
    decreases |s|
  {
    if |s| < |pat| then s
    else if s[..|pat|] == pat then rep + ReplaceAll(s[|pat|..], pat, rep)
    else [s[0]] + ReplaceAll(s[1..], pat, rep)
  }

  /** Replacing leaves a string in which pat does not occur unchanged. */
  lemma {:induction false} ReplaceAllNoOccurrence(s: string, pat: string, rep: string)
    requires |pat| > 0 && !Occurs(s, pat)
    ensures ReplaceAll(s, pat, rep) == s
    decreases |s|
  {
    if |s| >= |pat| {
      assert !MatchAt(s, pat, 0);
      if Occurs(s[1..], pat) {
        OccursInTail(s, pat);
      }
      ReplaceAllNoOccurrence(s[1..], pat, rep);
      assert s == [s[0]] + s[1..];
    }
  }

  /** A prefix that holds no character able to start pat is passed through unchanged. */
  lemma {:induction false} ReplaceAllSkips(a: string, b: string, pat: string, rep: string)
    requires |pat| > 0 && pat[0] !in a
    ensures ReplaceAll(a + b, pat, rep) == a + ReplaceAll(b, pat, rep)
    decreases |a|
  {
    if a != [] {
      var s := a + b;
      assert s[0] == a[0];
      assert s[1..] == a[1..] + b;
      if |s| >= |pat| {
        assert s[..|pat|][0] != pat[0];
      }
      ReplaceAllSkips(a[1..], b, pat, rep);
      assert a == [a[0]] + a[1..];
    } else {
      assert a + b == b;
    }
  }

  /** A string holding no character that can start pat is left unchanged. */
  lemma ReplaceAllIdentity(s: string, pat: string, rep: string)
    requires |pat| > 0 && pat[0] !in s
    ensures ReplaceAll(s, pat, rep) == s
  {
    ReplaceAllSkips(s, [], pat, rep);
    assert s + [] == s;
  }

  /** An occurrence at the front is replaced and scanning resumes after it. */
  lemma ReplaceAllAtFront(b: string, pat: string, rep: string)
    requires |pat| > 0
    ensures ReplaceAll(pat + b, pat, rep) == rep + ReplaceAll(b, pat, rep)
  {
    var s := pat + b;
    assert s[..|pat|] == pat;
    assert s[|pat|..] == b;
  }

  /** pat occurs in a suffix of s only if it occurs in s. */
  lemma OccursInSuffix(s: string, n: nat, pat: string)
    requires n <= |s| && Occurs(s[n..], pat)
    ensures Occurs(s, pat)
  {
    var t := s[n..];
    var i :| 0 <= i <= |t| - |pat| && MatchAt(t, pat, i);
    assert t[i..i + |pat|] == s[i + n..i + n + |pat|];
    assert MatchAt(s, pat, i + n);
  }

  /** As long as the output shows no character of a non-empty rep, it copies the input. */
  lemma {:induction false} ReplaceAllCopiesPrefix(s: string, pat: string, rep: string, j: nat)
    requires |pat| > 0 && |rep| > 0 && j <= |ReplaceAll(s, pat, rep)|
    ensures var r := ReplaceAll(s, pat, rep);
            (forall i :: 0 <= i < j ==> r[i] !in rep) ==> j <= |s| && r[..j] == s[..j]
    decreases |s|
  {
    var r := ReplaceAll(s, pat, rep);
    if |s| < |pat| {
    } else if s[..|pat|] == pat {
      if j > 0 {
        assert r[0] == rep[0];
      }
    } else if j > 0 {
      var r' := ReplaceAll(s[1..], pat, rep);
      assert r == [s[0]] + r';
      ReplaceAllCopiesPrefix(s[1..], pat, rep, j - 1);
      if forall i :: 0 <= i < j ==> r[i] !in rep {
        assert forall i :: 0 <= i < j - 1 ==> r'[i] !in rep by {
          forall i | 0 <= i < j - 1
            ensures r'[i] !in rep
          {
            assert r'[i] == r[i + 1];
          }
        }
        assert s == [s[0]] + s[1..];
        ConsKeepsPrefix(s[0], r', s[1..], j - 1);
      }
    }
  }

  /** Equal prefixes stay equal behind a common first character. */
  lemma ConsKeepsPrefix(c: char, a: string, b: string, k: nat)
    requires k <= |a| && k <= |b| && a[..k] == b[..k]
    ensures ([c] + a)[..k + 1] == ([c] + b)[..k + 1]
  {
    assert ([c] + a)[..k + 1] == [c] + a[..k];
    assert ([c] + b)[..k + 1] == [c] + b[..k];
  }

  /** A text free of q stays free of q behind a prefix sharing no character with q. */
  lemma NoneAfterForeignPrefix(rep: string, r: string, q: string)
    requires |q| > 0 && !Occurs(r, q)
    requires forall c :: c in rep ==> c !in q
    ensures !Occurs(rep + r, q)
  {
    var whole := rep + r;
    forall k | 0 <= k <= |whole| - |q|
      ensures !MatchAt(whole, q, k)
    {
      if k < |rep| {
        assert whole[k] == rep[k] && rep[k] in rep;
        assert whole[k..k + |q|][0] == whole[k];
      } else {
        assert whole[k..k + |q|] == r[k - |rep|..k - |rep| + |q|];
        assert !MatchAt(r, q, k - |rep|);
      }
    }
  }

  /** A text free of q stays free of q behind one character that does not start a q. */
  lemma NoneAfterChar(c: char, r: string, q: string)
    requires !Occurs(r, q) && !MatchAt([c] + r, q, 0)
    ensures !Occurs([c] + r, q)
  {
    var whole := [c] + r;
    forall k | 1 <= k <= |whole| - |q|
      ensures !MatchAt(whole, q, k)
    {
      assert whole[k..k + |q|] == r[k - 1..k - 1 + |q|];
      assert !MatchAt(r, q, k - 1);
    }
  }

  /**
   * A global replace by a non-empty text sharing no character with q leaves no
   * q behind, when q is the pattern itself or did not occur in the input: it
   * neither keeps an occurrence of the pattern nor creates a new one.
   */
  lemma {:induction false} ReplaceAllLeavesNo(s: string, pat: string, rep: string, q: string)
    requires |pat| > 0 && |rep| > 0 && |q| > 0
    requires forall c :: c in rep ==> c !in q
    requires q == pat || !Occurs(s, q)
    ensures !Occurs(ReplaceAll(s, pat, rep), q)
    decreases |s|
  {
    var r := ReplaceAll(s, pat, rep);
    if |s| < |pat| {
      if q != pat {
        assert r == s;
      }
    } else if s[..|pat|] == pat {
      var t := s[|pat|..];
      assert r == rep + ReplaceAll(t, pat, rep);
      if q != pat && Occurs(t, q) {
        OccursInSuffix(s, |pat|, q);
      }
      ReplaceAllLeavesNo(t, pat, rep, q);
      NoneAfterForeignPrefix(rep, ReplaceAll(t, pat, rep), q);
    } else {
      var t := s[1..];
      assert r == [s[0]] + ReplaceAll(t, pat, rep);
      if q != pat && Occurs(t, q) {
        OccursInTail(s, q);
      }
      ReplaceAllLeavesNo(t, pat, rep, q);
      if |q| <= |r| {
        ReplaceAllCopiesPrefix(s, pat, rep, |q|);
        if r[..|q|] == q {
          assert forall i :: 0 <= i < |q| ==> r[i] == q[i] && q[i] in q;
          assert MatchAt(s, q, 0);
        }
      }
      NoneAfterChar(s[0], ReplaceAll(t, pat, rep), q);
    }
  }

  /** The meridiem stage of shortenAmPm leaves no " AM" and no " PM" in the text. */
  lemma MeridiemsCompacted(text: string)
    ensures var shortened := ReplaceAll(ReplaceAll(text, " AM", "am"), " PM", "pm");
            !Occurs(shortened, " AM") && !Occurs(shortened, " PM")
  {
    var once := ReplaceAll(text, " AM", "am");
    ReplaceAllLeavesNo(text, " AM", "am", " AM");
    ReplaceAllLeavesNo(once, " PM", "pm", " AM");
    ReplaceAllLeavesNo(once, " PM", "pm", " PM");
  }

  /**
   * shortenAmPm: " AM" and " PM" become "am" and "pm"; then, only if the text
   * holds a lowercase 'm', every ":00" is deleted.
   */
  function ShortenAmPm(text: string): (r: string)
    ensures text == [] ==> r == []
    ensures |r| <= |text|
  {
    var shortened := ReplaceAll(ReplaceAll(text, " AM", "am"), " PM", "pm");
    if 'm' in shortened then ReplaceAll(shortened, ":00", "") else shortened
  }

  /** removeLeadingZero: drops a single '0' at the start of the text, if there is one. */
  function RemoveLeadingZero(text: string): (r: string)
    ensures text == r || text == ['0'] + r
    ensures r == text <==> text == [] || text[0] != '0'
  {
    if |text| > 0 && text[0] == '0' then text[1..] else text
  }

  /** formatTime, applied to the locale's raw rendering of the time. */
  function FormatTime(clockText: string): (r: string)
    ensures clockText == [] ==> r == []
    ensures |r| <= |clockText|
  {
    RemoveLeadingZero(ShortenAmPm(clockText))
  }

  /** A 12-hour locale rendering: two-digit hour and minute, a space, and "AM" or "PM". */
  function TwelveHourText(hour: nat, minute: nat, pm: bool): string
    requires hour < 100 && minute < 100
  {
    Padded(hour, 2) + ":" + Padded(minute, 2) + Marker(pm)
  }

  /** Where the hour, the minute and the marker sit in a 12-hour rendering. */
  lemma TwelveHourLayout(hour: nat, minute: nat, pm: bool)
    requires hour < 100 && minute < 100
    ensures var text := TwelveHourText(hour, minute, pm);
            |text| == 8 && text[..2] == Padded(hour, 2) && text[2] == ':'
            && text[3..5] == Padded(minute, 2) && text[5..] == Marker(pm)
  {
    PaddedTwoUnpads(hour);
    PaddedTwoUnpads(minute);
    var h, m := Padded(hour, 2), Padded(minute, 2);
    var text := h + ":" + m + Marker(pm);
    assert text[..2] == h && text[3..5] == m && text[5..] == Marker(pm);
  }

  /** A 24-hour locale rendering: two-digit hour and minute. */
  function TwentyFourHourText(hour: nat, minute: nat): string
    requires hour < 100 && minute < 100
  {
    Padded(hour, 2) + ":" + Padded(minute, 2)
  }

  /** A 12-hour rendering as newer ICU data gives it, with U+202F before "AM" or "PM". */
  function NarrowSpaceText(hour: nat, minute: nat, pm: bool): string
    requires hour < 100 && minute < 100
  {
    Padded(hour, 2) + ":" + Padded(minute, 2) + NarrowMarker(pm)
  }

  function NarrowMarker(pm: bool): string {
    if pm then "\U{202F}PM" else "\U{202F}AM"
  }

  lemma PaddedHasNoSeparators(n: nat)
    requires n < 100
    ensures ' ' !in Padded(n, 2) && ':' !in Padded(n, 2) && 'm' !in Padded(n, 2)
  {
    var p := Padded(n, 2);
    assert forall i :: 0 <= i < |p| ==> IsDigit(p[i]);
  }

  /** Removing the zero of a padded hour leaves the hour unpadded. */
  lemma {:induction false} UnpadHour(hour: nat, rest: string)
    requires hour < 100
    ensures RemoveLeadingZero(Padded(hour, 2) + rest) == Decimal(hour) + rest
  {
    PaddedTwoUnpads(hour);
    if hour < 10 {
      assert Padded(hour, 2) + rest == ['0'] + (Decimal(hour) + rest);
    } else {
      assert (Padded(hour, 2) + rest)[0] == Decimal(hour)[0];
    }
  }

  /** The meridiem marker a 12-hour locale prints, and what shortenAmPm makes of it. */
  function Marker(pm: bool): string {
    if pm then " PM" else " AM"
  }

  function CompactMarker(pm: bool): string {
    if pm then "pm" else "am"
  }

  /** The two meridiem rewrites turn a trailing marker into its compact form. */
  lemma {:induction false} CollapseMarker(clock: string, pm: bool)
    requires ' ' !in clock
    ensures ReplaceAll(ReplaceAll(clock + Marker(pm), " AM", "am"), " PM", "pm")
            == clock + CompactMarker(pm)
  {
    ReplaceAllSkips(clock, Marker(pm), " AM", "am");
    var once := if pm then " PM" else "am";
    if pm {
      assert " PM"[0..3][1] != " AM"[1];
      assert ReplaceAll(" PM", " AM", "am") == " PM";
    } else {
      ReplaceAllAtFront([], " AM", "am");
      assert " AM" + [] == " AM";
    }
    assert ReplaceAll(clock + Marker(pm), " AM", "am") == clock + once;
    ReplaceAllSkips(clock, once, " PM", "pm");
    if pm {
      ReplaceAllAtFront([], " PM", "pm");
      assert " PM" + [] == " PM";
    } else {
      ReplaceAllIdentity("am", " PM", "pm");
    }
  }

  /** ":00" is deleted from ":mm" followed by a compact marker exactly when mm is "00". */
  lemma {:induction false} DropZeroMinutes(m: string, suffix: string)
    requires |m| == 2 && ':' !in m && ':' !in suffix
    ensures ReplaceAll(":" + m + suffix, ":00", "") == (if m == "00" then "" else ":" + m) + suffix
  {
    var tail := ":" + m + suffix;
    if m == "00" {
      assert tail == ":00" + suffix;
      ReplaceAllAtFront(suffix, ":00", "");
      ReplaceAllIdentity(suffix, ":00", "");
    } else {
      assert tail[..3] != ":00" by {
        assert tail[1..3] == m;
      }
      assert tail[1..] == m + suffix;
      ReplaceAllIdentity(m + suffix, ":00", "");
    }
  }

  /** shortenAmPm in two stages: the meridiem rewrites, then the conditional ":00" deletion. */
  lemma ShortenAmPmSteps(text: string, shortened: string)
    requires ReplaceAll(ReplaceAll(text, " AM", "am"), " PM", "pm") == shortened
    ensures ShortenAmPm(text) == if 'm' in shortened then ReplaceAll(shortened, ":00", "") else shortened
  {
  }

  /** The ":00" deletion on "h:mm" and a compact marker: only a zero minute goes. */
  lemma {:induction false} DropClockZeros(h: string, m: string, suffix: string)
    requires |m| == 2 && ':' !in h && ':' !in m && ':' !in suffix
    ensures ReplaceAll(h + ":" + m + suffix, ":00", "") == h + ((if m == "00" then "" else ":" + m) + suffix)
  {
    var tail := ":" + m + suffix;
    assert h + ":" + m + suffix == h + tail;
    ReplaceAllSkips(h, tail, ":00", "");
    DropZeroMinutes(m, suffix);
  }

  /** The compacted clock still ends in the 'm' of its marker. */
  lemma EndsInM(clock: string, pm: bool)
    ensures 'm' in clock + CompactMarker(pm)
  {
    var s := clock + CompactMarker(pm);
    assert s[|s| - 1] == 'm';
  }

  /** shortenAmPm on "hh:mm" and a marker, for hour and minute texts without separators. */
  lemma {:induction false} ShortenClock(h: string, m: string, pm: bool)
    requires |m| == 2 && ' ' !in h && ':' !in h && ' ' !in m && ':' !in m
    ensures ShortenAmPm(h + ":" + m + Marker(pm))
            == h + ((if m == "00" then "" else ":" + m) + CompactMarker(pm))
  {
    var clock := h + ":" + m;
    CollapseMarker(clock, pm);
    EndsInM(clock, pm);
    DropClockZeros(h, m, CompactMarker(pm));
    ShortenAmPmSteps(clock + Marker(pm), clock + CompactMarker(pm));
  }

  /** Text holding neither " AM" nor " PM" nor a lowercase 'm' passes shortenAmPm unchanged. */
  lemma ShortenWithoutMarkers(text: string)
    requires !Occurs(text, " AM") && !Occurs(text, " PM") && 'm' !in text
    ensures ShortenAmPm(text) == text
  {
    ReplaceAllNoOccurrence(text, " AM", "am");
    ReplaceAllNoOccurrence(text, " PM", "pm");
  }

  /** Text without a space or a lowercase 'm' passes shortenAmPm unchanged. */
  lemma ShortenLeavesPlainText(text: string)
    requires ' ' !in text && 'm' !in text
    ensures ShortenAmPm(text) == text
  {
    ReplaceAllIdentity(text, " AM", "am");
    ReplaceAllIdentity(text, " PM", "pm");
  }

  /** A padded hour followed by text without a space or 'm' only loses its leading zero. */
  lemma FormatPlainClock(hour: nat, rest: string)
    requires hour < 100 && ' ' !in rest && 'm' !in rest
    ensures FormatTime(Padded(hour, 2) + rest) == Decimal(hour) + rest
  {
    PaddedHasNoSeparators(hour);
    ShortenLeavesPlainText(Padded(hour, 2) + rest);
    UnpadHour(hour, rest);
  }

  /** formatTime in two stages: shortenAmPm, then the leading-zero removal. */
  lemma FormatTimeSteps(text: string, shortened: string)
    requires ShortenAmPm(text) == shortened
    ensures FormatTime(text) == RemoveLeadingZero(shortened)
  {
  }

  /** shortenAmPm on a 12-hour time: the marker is compacted and a zero minute dropped. */
  lemma {:induction false} ShortenTwelveHour(hour: nat, minute: nat, pm: bool)
    requires hour < 100 && minute < 100
    ensures ShortenAmPm(TwelveHourText(hour, minute, pm))
            == Padded(hour, 2) + ((if minute == 0 then "" else ":" + Padded(minute, 2)) + CompactMarker(pm))
  {
    PaddedHasNoSeparators(hour);
    PaddedHasNoSeparators(minute);
    ShortenClock(Padded(hour, 2), Padded(minute, 2), pm);
    PaddedTwoUnpads(0);
    assert Padded(minute, 2) == "00" <==> minute == 0 by {
      if Padded(minute, 2) == "00" {
        assert ValueOf(Padded(minute, 2)) == ValueOf(Padded(0, 2));
      }
    }
  }

  /**
   * A 12-hour time loses its leading zero, its space and its ":00": "09:00 AM"
   * becomes "9am", "09:30 PM" becomes "9:30pm", "12:05 AM" becomes "12:05am".
   */
  lemma {:induction false} FormatTwelveHour(hour: nat, minute: nat, pm: bool)
    requires hour < 100 && minute < 100
    ensures FormatTime(TwelveHourText(hour, minute, pm))
            == Decimal(hour) + ((if minute == 0 then "" else ":" + Padded(minute, 2)) + CompactMarker(pm))
  {
    var rest := (if minute == 0 then "" else ":" + Padded(minute, 2)) + CompactMarker(pm);
    ShortenTwelveHour(hour, minute, pm);
    FormatTimeSteps(TwelveHourText(hour, minute, pm), Padded(hour, 2) + rest);
    UnpadHour(hour, rest);
  }

  /**
   * A 24-hour time only loses its leading zero: without an 'm' the ":00" stays,
   * so "14:00" stays "14:00" and "09:00" becomes "9:00".
   */
  lemma {:induction false} FormatTwentyFourHour(hour: nat, minute: nat)
    requires hour < 100 && minute < 100
    ensures FormatTime(TwentyFourHourText(hour, minute)) == Decimal(hour) + ":" + Padded(minute, 2)
  {
    var rest := ":" + Padded(minute, 2);
    PaddedHasNoSeparators(minute);
    assert TwentyFourHourText(hour, minute) == Padded(hour, 2) + rest;
    FormatPlainClock(hour, rest);
  }

  /**
   * With a narrow no-break space before the marker nothing matches " AM" or
   * " PM" and no lowercase 'm' appears, so only the leading zero goes: "09:00 AM"
   * becomes "9:00 AM" and "09:30 PM" becomes "9:30 PM" (with U+202F kept).
   */
  lemma {:induction false} FormatNarrowSpace(hour: nat, minute: nat, pm: bool)
    requires hour < 100 && minute < 100
    ensures FormatTime(NarrowSpaceText(hour, minute, pm))
            == Decimal(hour) + (":" + Padded(minute, 2) + NarrowMarker(pm))
  {
    var rest := ":" + Padded(minute, 2) + NarrowMarker(pm);
    PaddedHasNoSeparators(minute);
    assert ' ' !in NarrowMarker(pm) && 'm' !in NarrowMarker(pm);
    assert NarrowSpaceText(hour, minute, pm) == Padded(hour, 2) + rest;
    FormatPlainClock(hour, rest);
  }
}
