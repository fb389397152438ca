/** The prompt sent to the language model: a fixed instruction, a sight clause
    built from the detected object labels, a calendar clause built from the
    upcoming event summaries, a fixed lead-in, and the user's text. */
module Prompt {

  const Instruction := "You are Chat Hat, an AI assistant in a hat. Answer the user quickly with a reponse no more than 20 words."
  const InputLeadIn := "User input: "

  const NoSight := "If you are asked if you can see, you cannot. "
  const SightPrefix := "If you are asked what you see, you see "
  const SightEnd := ". "

  const NoCalendar := "If you are asked about upcoming events, you do not have access"
  const CalendarPrefix := "If you are asked about upcoming events, the user has "

  /** "a <obj> " for each object, in order. */
  function ObjectList(objs: seq<string>): string
  {
    if objs == [] then "" else ("a " + objs[0] + " ") + ObjectList(objs[1..])
  }

  /** "<event>, " for each event, in order. */
  function EventList(events: seq<string>): string
  {
    if events == [] then "" else (events[0] + ", ") + EventList(events[1..])
  }

  function Sight(objs: seq<string>): string
  {
    if |objs| > 0 then SightPrefix + ObjectList(objs) + SightEnd else NoSight
  }

  function Calendar(events: seq<string>): string
  {
    if |events| > 0 then CalendarPrefix + EventList(events) else NoCalendar
  }

  function FinalPrompt(text: string, objs: seq<string>, events: seq<string>): string
  {
    Instruction + Sight(objs) + Calendar(events) + InputLeadIn + text
  }

  /** Concatenation regroups freely. */
  lemma AppendAssoc(a: string, b: string, c: string)
    ensures (a + b) + c == a + (b + c)
  {
  }

  /** The object list of a concatenation is the concatenation of the lists. */
  lemma {:induction false} ObjectListAppend(a: seq<string>, b: seq<string>)
    ensures ObjectList(a + b) == ObjectList(a) + ObjectList(b)
  {
    if a == [] {
      assert a + b == b;
    } else {
      assert (a + b)[0] == a[0];
      assert (a + b)[1..] == a[1..] + b;
      ObjectListAppend(a[1..], b);
    }
  }

  /** The event list of a concatenation is the concatenation of the lists. */
  lemma {:induction false} EventListAppend(a: seq<string>, b: seq<string>)
    ensures EventList(a + b) == EventList(a) + EventList(b)
  {
    if a == [] {
      assert a + b == b;
    } else {
      assert (a + b)[0] == a[0];
      assert (a + b)[1..] == a[1..] + b;
      EventListAppend(a[1..], b);
    }
  }

  /** Each object is mentioned as "a <obj> ", between the mentions of the
      objects before it and those after it. */
  lemma ObjectsInOrder(objs: seq<string>, k: nat)
    requires k < |objs|
    ensures ObjectList(objs) == ObjectList(objs[..k]) + (("a " + objs[k] + " ") + ObjectList(objs[k + 1..]))
  {
    assert objs == objs[..k] + objs[k..];
    ObjectListAppend(objs[..k], objs[k..]);
    var tail := objs[k..];
    assert tail[0] == objs[k] && tail[1..] == objs[k + 1..];
  }

  /** Each event is listed as "<event>, ", between the events before it and
      those after it. */
  lemma EventsInOrder(events: seq<string>, k: nat)
    requires k < |events|
    ensures EventList(events) == EventList(events[..k]) + ((events[k] + ", ") + EventList(events[k + 1..]))
  {
    assert events == events[..k] + events[k..];
    EventListAppend(events[..k], events[k..]);
    var tail := events[k..];
    assert tail[0] == events[k] && tail[1..] == events[k + 1..];
  }

  /** The sight clause tells the model which case it is in: the "cannot see"
      sentence exactly when there are no objects, otherwise the "you see"
      sentence ending in ". ". */
  lemma SightCases(objs: seq<string>)
    ensures var s := Sight(objs);
      && (objs == [] <==> s == NoSight)
      && (objs != [] <==> |s| >= |SightPrefix| && s[..|SightPrefix|] == SightPrefix)
      && (objs != [] ==> s[|s| - |SightEnd|..] == SightEnd)
  {
    assert NoSight[17] != SightPrefix[17];
    var s := Sight(objs);
    if objs != [] {
      assert s[..|SightPrefix|] == SightPrefix;
      assert s[|s| - |SightEnd|..] == SightEnd;
      assert s[17] != NoSight[17];
    } else {
      assert s[..|SightPrefix|][17] != SightPrefix[17];
    }
  }

  /** The calendar clause: the "no access" sentence exactly when there are no
      events, otherwise the "the user has" sentence. */
  lemma CalendarCases(events: seq<string>)
    ensures var c := Calendar(events);
      && (events == [] <==> c == NoCalendar)
      && (events != [] <==> |c| >= |CalendarPrefix| && c[..|CalendarPrefix|] == CalendarPrefix)
  {
    assert NoCalendar[40] != CalendarPrefix[40];
    var c := Calendar(events);
    if events != [] {
      assert c[..|CalendarPrefix|] == CalendarPrefix;
      assert c[40] != NoCalendar[40];
    } else {
      assert c[..|CalendarPrefix|][40] != CalendarPrefix[40];
    }
  }

  /** Builds the prompt as the source does, growing the two clauses with `+=`
      loops. */
  method BuildPrompt(text: string, detectedObjs: seq<string>, upcomingEvents: seq<string>) returns (prompt: string)
    ensures prompt == FinalPrompt(text, detectedObjs, upcomingEvents)
  {
    var sight := NoSight;
    if |detectedObjs| > 0 {
      sight := SightPrefix;
      for i := 0 to |detectedObjs|
        invariant sight == SightPrefix + ObjectList(detectedObjs[..i])
      {
        var mention := "a " + detectedObjs[i] + " ";
        ObjectListAppend(detectedObjs[..i], [detectedObjs[i]]);
        assert detectedObjs[..i + 1] == detectedObjs[..i] + [detectedObjs[i]];
        assert ObjectList([detectedObjs[i]]) == mention;
        AppendAssoc(SightPrefix, ObjectList(detectedObjs[..i]), mention);
        sight := sight + mention;
      }
      assert detectedObjs[..|detectedObjs|] == detectedObjs;
      sight := sight + SightEnd;
    }

    var calendar := NoCalendar;
    if |upcomingEvents| > 0 {
      calendar := CalendarPrefix;
      for i := 0 to |upcomingEvents|
        invariant calendar == CalendarPrefix + EventList(upcomingEvents[..i])
      {
        var entry := upcomingEvents[i] + ", ";
        EventListAppend(upcomingEvents[..i], [upcomingEvents[i]]);
        assert upcomingEvents[..i + 1] == upcomingEvents[..i] + [upcomingEvents[i]];
        assert EventList([upcomingEvents[i]]) == entry;
        AppendAssoc(CalendarPrefix, EventList(upcomingEvents[..i]), entry);
        calendar := calendar + entry;
      }
      assert upcomingEvents[..|upcomingEvents|] == upcomingEvents;
    }

    prompt := Instruction + sight + calendar + InputLeadIn + text;
  }
}
