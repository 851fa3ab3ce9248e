/** The journal entry store: two records in a browser-local key-value store,
    the list of entries under `digital-bonsai-entries` and the time of the
    latest entry under `digital-bonsai-last-entry-date`, with a limit of one
    entry per local calendar day. */
module StorageService {
  import opened Wrappers
  import opened Calendar
  import opened Decimal
  import opened GrowthStage

  /** One journal entry; `date` is the instant it was written. */
  datatype JournalEntry = JournalEntry(id: string, content: string, date: Timestamp, prompt: string)

  /** The entry written at `now`: its id is the decimal numeral of `now`'s
      milliseconds, so id and date come from the same instant. */
  function MakeEntry(content: string, prompt: string, now: Timestamp): (entry: JournalEntry)
    ensures entry.content == content && entry.prompt == prompt
    ensures entry.date == now
    ensures ParseInt(entry.id) == Some(entry.date.millis)
  {
    IntRoundTrip(now.millis);
    JournalEntry(IntToString(now.millis), content, now, prompt)
  }

  /** Entries written at different instants have different ids. */
  lemma DistinctInstantsDistinctIds(content: string, prompt: string, other: string, otherPrompt: string,
                                    a: Timestamp, b: Timestamp)
    requires a.millis != b.millis
    ensures MakeEntry(content, prompt, a).id != MakeEntry(other, otherPrompt, b).id
  {
    if IntToString(a.millis) == IntToString(b.millis) {
      IntToStringInjective(a.millis, b.millis);
    }
  }

  class JournalStore {
    /** The record under `digital-bonsai-entries`; None while the key is absent. */
    var storedEntries: Option<seq<JournalEntry>>
    /** The record under `digital-bonsai-last-entry-date`; None while the key is absent. */
    var lastEntryDate: Option<Timestamp>

    /** A store whose keys have never been written. */
    constructor ()
      ensures storedEntries == None && lastEntryDate == None
      ensures Valid()
    {
      storedEntries := None;
      lastEntryDate := None;
    }

    /** The store invariant kept by every operation: a last-entry date is
        stored exactly when there are entries, and it is the date of the
        newest one. */
    ghost predicate Valid()
      reads this
    {
      (lastEntryDate.Some? <==> GetEntries() != []) &&
      (lastEntryDate.Some? ==> lastEntryDate.value == GetEntries()[|GetEntries()| - 1].date)
    }

    /** All stored entries in insertion order; none while the key is absent. */
    function GetEntries(): (entries: seq<JournalEntry>)
      reads this
      ensures storedEntries.None? ==> entries == []
      ensures storedEntries.Some? ==> entries == storedEntries.value
    {
      if storedEntries.Some? then storedEntries.value else []
    }

    /** Whether an entry may be saved on the calendar day of `now`. */
    predicate CanSaveEntryToday(now: Timestamp)
      reads this
      ensures lastEntryDate.None? ==> CanSaveEntryToday(now)
      ensures Valid() ==>
        (CanSaveEntryToday(now) <==>
          GetEntries() == [] || CalendarDay(GetEntries()[|GetEntries()| - 1].date) != CalendarDay(now))
    {
      match lastEntryDate
      case None => true
      case Some(last) => CalendarDay(now) != CalendarDay(last)
    }

    /** Whether an entry was already saved on the calendar day of `now`. */
    predicate HasEntryToday(now: Timestamp)
      reads this
      ensures HasEntryToday(now) <==> !CanSaveEntryToday(now)
    {
      match lastEntryDate
      case None => false
      case Some(last) => CalendarDay(now) == CalendarDay(last)
    }

    /** Both answers depend on `now` only through its calendar day. */
    lemma SameDaySameAnswer(now: Timestamp, later: Timestamp)
      requires CalendarDay(now) == CalendarDay(later)
      ensures CanSaveEntryToday(now) == CanSaveEntryToday(later)
      ensures HasEntryToday(now) == HasEntryToday(later)
    {
    }

    /** Appends the entry written at `now` and stamps the last-entry date,
        unless an entry was already saved on `now`'s calendar day, in which
        case nothing changes and None is returned. */
    method SaveEntry(content: string, prompt: string, now: Timestamp) returns (saved: Option<JournalEntry>)
      modifies this
      ensures saved.None? <==> !old(CanSaveEntryToday(now))
      ensures saved.None? ==> storedEntries == old(storedEntries) && lastEntryDate == old(lastEntryDate)
      ensures saved.Some? ==> saved.value == MakeEntry(content, prompt, now)
      ensures saved.Some? ==> GetEntries() == old(GetEntries()) + [saved.value] && lastEntryDate == Some(now)
      ensures saved.Some? ==> HasEntryToday(now) && Valid()
      ensures old(Valid()) ==> Valid()
      ensures GetGrowthStage(|old(GetEntries())|) <= GetGrowthStage(|GetEntries()|)
    {
      if !CanSaveEntryToday(now) {
        return None;
      }
      var entry := MakeEntry(content, prompt, now);
      var existingEntries := GetEntries();
      existingEntries := existingEntries + [entry];
      storedEntries := Some(existingEntries);
      lastEntryDate := Some(now);
      StageMonotone(|existingEntries| - 1, |existingEntries|);
      return Some(entry);
    }

    /** Removes both records. */
    method ClearEntries()
      modifies this
      ensures storedEntries == None && lastEntryDate == None
      ensures Valid() && GetEntries() == []
      ensures forall now :: CanSaveEntryToday(now) && !HasEntryToday(now)
    {
      storedEntries := None;
      lastEntryDate := None;
    }
  }

  /** Two saves on one calendar day: the second is refused and leaves the
      store as the first left it. */
  method SaveTwiceOnOneDay(store: JournalStore, first: string, second: string, prompt: string,
                           now: Timestamp, later: Timestamp)
    returns (firstSaved: Option<JournalEntry>, secondSaved: Option<JournalEntry>)
    requires CalendarDay(now) == CalendarDay(later)
    modifies store
    ensures firstSaved.Some? <==> old(store.CanSaveEntryToday(now))
    ensures secondSaved == None
    ensures store.GetEntries() ==
      if firstSaved.Some? then old(store.GetEntries()) + [firstSaved.value] else old(store.GetEntries())
    ensures store.lastEntryDate == if firstSaved.Some? then Some(now) else old(store.lastEntryDate)
  {
    firstSaved := store.SaveEntry(first, prompt, now);
    store.SameDaySameAnswer(now, later);
    secondSaved := store.SaveEntry(second, prompt, later);
  }

  /** A fresh store takes one entry, after which the day counts as journaled,
      the tree shows stage 1, and the next calendar day accepts an entry
      again. */
  method FirstEntryThenNextDay(content: string, prompt: string, now: Timestamp, tomorrow: Timestamp)
    returns (journaledToday: bool, stageToday: int, entries: seq<JournalEntry>)
    requires CalendarDay(tomorrow) == NextDay(CalendarDay(now))
    ensures journaledToday && stageToday == 1
    ensures |entries| == 2
    ensures entries[0] == MakeEntry(content, prompt, now)
    ensures entries[1] == MakeEntry(content, prompt, tomorrow)
  {
    var store := new JournalStore();
    var saved := store.SaveEntry(content, prompt, now);
    assert store.GetEntries() == [saved.value];
    journaledToday := store.HasEntryToday(now);
    stageToday := GetGrowthStage(|store.GetEntries()|);
    NextDayOrdinal(CalendarDay(now));
    saved := store.SaveEntry(content, prompt, tomorrow);
    entries := store.GetEntries();
  }
}
