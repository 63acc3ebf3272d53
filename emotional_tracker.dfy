/**
 * The emotional tracker: saving a day's mood entry and the analysis dialog
 * that summarises the last few days as a pie chart of moods and a table of
 * entries whose rating column is colour-coded in three tiers.
 */
module MoodTracker {
  import opened Wrappers
  import Decimal
  import Text
  import Calendar
  import Store

  /** The read-only mood combo box's choices, in display order. */
  const MoodChoices: seq<string> := ["Happy", "Sad", "Anxious", "Excited", "Tired", "Angry", "Peaceful", "Stressed"]

  /** The rating slider's range and its initial position. */
  const MinRating := 1
  const MaxRating := 10
  const DefaultRating := 5

  /** How many days back the analysis dialog asks for. */
  const AnalysisDays: nat := 4

  // ---------------------------------------------------------------------
  // Rating colour tiers

  /** Green, orange and red text in the rating table. */
  datatype Tier = High | Mid | Low

  function TierOf(rating: int): Tier
  {
    if rating >= 8 then High else if rating >= 5 then Mid else Low
  }

  function Rank(t: Tier): nat
  {
    match t
    case Low => 0
    case Mid => 1
    case High => 2
  }

  /**
   * The tiers split the slider's range into 1..4 (red), 5..7 (orange) and
   * 8..10 (green), and a higher rating never falls in a lower tier.
   */
  lemma TierPartition(a: int, b: int)
    requires a <= b
    ensures Rank(TierOf(a)) <= Rank(TierOf(b))
    ensures TierOf(a) == High <==> a >= 8
    ensures TierOf(a) == Low <==> a <= 4
    ensures TierOf(a) == Mid <==> 5 <= a <= 7
  {
  }

  // ---------------------------------------------------------------------
  // Counting moods as a Python dict does: keys in first-insertion order

  function Moods(entries: seq<Store.Entry>): seq<string>
  {
    seq(|entries|, i requires 0 <= i < |entries| => entries[i].mood)
  }

  /** The dict's keys after inserting `moods` one by one. */
  function Labels(moods: seq<string>): seq<string>
  {
    if moods == [] then []
    else
      var d := Labels(moods[..|moods| - 1]);
      if moods[|moods| - 1] in d then d else d + [moods[|moods| - 1]]
  }

  /** How many times `m` occurs in `moods`. */
  function Count(moods: seq<string>, m: string): nat
  {
    if moods == [] then 0
    else Count(moods[..|moods| - 1], m) + (if moods[|moods| - 1] == m then 1 else 0)
  }

  ghost predicate NoDuplicates(s: seq<string>) {
    forall i, j :: 0 <= i < j < |s| ==> s[i] != s[j]
  }

  /** Each mood appears exactly once among the labels, and only moods that occur do. */
  lemma {:induction false} LabelsSpec(moods: seq<string>)
    ensures NoDuplicates(Labels(moods))
    ensures forall m :: m in Labels(moods) <==> m in moods
  {
    if moods != [] {
      var init := moods[..|moods| - 1];
      LabelsSpec(init);
      assert moods == init + [moods[|moods| - 1]];
    }
  }

  lemma {:induction false} CountAbsent(moods: seq<string>, m: string)
    requires m !in moods
    ensures Count(moods, m) == 0
  {
    if moods != [] {
      CountAbsent(moods[..|moods| - 1], m);
    }
  }

  lemma {:induction false} CountPresent(moods: seq<string>, m: string)
    requires m in moods
    ensures Count(moods, m) >= 1
  {
    var init := moods[..|moods| - 1];
    if moods[|moods| - 1] != m {
      assert moods == init + [moods[|moods| - 1]];
      CountPresent(init, m);
    }
  }

  /** The pie's slice sizes: the count of each label. */
  function Sizes(moods: seq<string>, labels: seq<string>): seq<nat>
  {
    seq(|labels|, k requires 0 <= k < |labels| => Count(moods, labels[k]))
  }

  function Sum(s: seq<nat>): nat
  {
    if s == [] then 0 else Sum(s[..|s| - 1]) + s[|s| - 1]
  }

  /** Every slice is at least one entry and the slices add up to all the entries. */
  lemma TallyTotals(moods: seq<string>)
    ensures forall k :: 0 <= k < |Labels(moods)| ==> Sizes(moods, Labels(moods))[k] >= 1
    ensures Sum(Sizes(moods, Labels(moods))) == |moods|
    ensures moods != [] ==> Labels(moods) != []
  {
    LabelsSpec(moods);
    forall k | 0 <= k < |Labels(moods)|
      ensures Count(moods, Labels(moods)[k]) >= 1
    {
      CountPresent(moods, Labels(moods)[k]);
    }
    SumSizes(moods);
    if moods != [] {
      assert moods[0] in Labels(moods);
    }
  }

  lemma {:induction false} SumSizes(moods: seq<string>)
    ensures Sum(Sizes(moods, Labels(moods))) == |moods|
  {
    if moods != [] {
      var init := moods[..|moods| - 1];
      var x := moods[|moods| - 1];
      var d := Labels(init);
      assert moods == init + [x];
      SumSizes(init);
      LabelsSpec(init);
      SumAfterAppend(init, x, d);
      if x !in d {
        assert Labels(moods) == d + [x];
        SumExtend(moods, d, x);
        CountAbsent(init, x);
      } else {
        assert Labels(moods) == d;
      }
    }
  }

  /** Appending `x` to the moods adds one to the total exactly when `x` is a label. */
  lemma {:induction false} SumAfterAppend(init: seq<string>, x: string, d: seq<string>)
    requires NoDuplicates(d)
    ensures Sum(Sizes(init + [x], d)) == Sum(Sizes(init, d)) + (if x in d then 1 else 0)
  {
    assert (init + [x])[..|init + [x]| - 1] == init;
    if d != [] {
      var dd := d[..|d| - 1];
      assert NoDuplicates(dd);
      SumAfterAppend(init, x, dd);
      assert Sizes(init + [x], d)[..|d| - 1] == Sizes(init + [x], dd);
      assert Sizes(init, d)[..|d| - 1] == Sizes(init, dd);
      assert d == dd + [d[|d| - 1]];
      assert x in d <==> x in dd || x == d[|d| - 1];
    }
  }

  lemma SumExtend(moods: seq<string>, d: seq<string>, y: string)
    ensures Sum(Sizes(moods, d + [y])) == Sum(Sizes(moods, d)) + Count(moods, y)
  {
    assert Sizes(moods, d + [y])[..|d|] == Sizes(moods, d);
  }

  // ---------------------------------------------------------------------
  // The analysis dialog

  /** What the dialog's figure shows. `NoMoodData` is the branch for an empty count. */
  datatype Chart = NoData | NoMoodData | Pie(labels: seq<string>, sizes: seq<nat>)

  /** One line of the entries table. */
  datatype Row = Row(date: string, mood: string, rating: string, notes: string, tier: Tier)

  /** The notes cell: a NULL or empty note shows as an empty cell. */
  function NotesCell(notes: Option<string>): string
  {
    match notes
    case None => ""
    case Some(n) => n
  }

  function RowOf(e: Store.Entry): Row
  {
    Row(e.date, e.mood, Decimal.IntToString(e.dayRating), NotesCell(e.notes), TierOf(e.dayRating))
  }

  /** The table row keeps the entry's date, mood and note, and its rating reads back as the rating. */
  lemma RowFaithful(e: Store.Entry)
    requires e.dayRating >= 0
    ensures RowOf(e).date == e.date && RowOf(e).mood == e.mood
    ensures Text.ParseInt(RowOf(e).rating) == Some(e.dayRating)
    ensures e.notes.Some? ==> RowOf(e).notes == e.notes.value
    ensures e.notes.None? ==> RowOf(e).notes == ""
  {
    Text.ParseNatString(e.dayRating);
  }

  function ChartOf(entries: seq<Store.Entry>): Chart
  {
    if entries == [] then NoData
    else
      var labels := Labels(Moods(entries));
      if labels != [] then Pie(labels, Sizes(Moods(entries), labels)) else NoMoodData
  }

  /**
   * The figure shows "No data" exactly when there are no entries, and the
   * "No mood data" branch is never taken: some entry always gives a label.
   */
  lemma ChartCases(entries: seq<Store.Entry>)
    ensures ChartOf(entries) == NoData <==> entries == []
    ensures ChartOf(entries) != NoMoodData
    ensures ChartOf(entries).Pie? ==> Sum(ChartOf(entries).sizes) == |entries|
  {
    TallyTotals(Moods(entries));
  }

  /** Counting a mood that already has a label adds one to its slice only. */
  lemma TallyIncrement(ms: seq<string>, x: string, k: nat)
    requires NoDuplicates(Labels(ms)) && k < |Labels(ms)| && Labels(ms)[k] == x
    ensures Labels(ms + [x]) == Labels(ms)
    ensures Sizes(ms + [x], Labels(ms)) == Sizes(ms, Labels(ms))[k := Count(ms, x) + 1]
  {
    assert (ms + [x])[..|ms|] == ms;
  }

  /** Counting a mood without a label appends it with a slice of one. */
  lemma TallyNew(ms: seq<string>, x: string)
    requires NoDuplicates(Labels(ms)) && x !in Labels(ms)
    ensures Labels(ms + [x]) == Labels(ms) + [x] && NoDuplicates(Labels(ms) + [x])
    ensures Sizes(ms + [x], Labels(ms) + [x]) == Sizes(ms, Labels(ms)) + [1]
  {
    assert (ms + [x])[..|ms|] == ms;
    LabelsSpec(ms);
    var labels := Labels(ms);
    forall k | 0 <= k < |labels|
      ensures Count(ms + [x], labels[k]) == Count(ms, labels[k])
    {
      CountAppend(ms, x, labels[k]);
    }
    CountAbsent(ms, x);
    CountAppend(ms, x, x);
    var after, before := Sizes(ms + [x], labels + [x]), Sizes(ms, labels);
    assert |after| == |before + [1]|;
    forall k | 0 <= k < |after|
      ensures after[k] == (before + [1])[k]
    {
      if k < |labels| {
        assert (labels + [x])[k] == labels[k];
      }
    }
  }

  /** Counting after one more mood: one more exactly for that mood. */
  lemma CountAppend(ms: seq<string>, x: string, m: string)
    ensures Count(ms + [x], m) == Count(ms, m) + (if x == m then 1 else 0)
  {
    assert (ms + [x])[..|ms|] == ms;
  }

  /** The dict lookup: the position of key `m`, or `|keys|` when it has none. */
  method KeyIndex(keys: seq<string>, m: string) returns (k: nat)
    ensures k <= |keys|
    ensures k < |keys| ==> keys[k] == m
    ensures k == |keys| <==> m !in keys
  {
    k := 0;
    while k < |keys| && keys[k] != m
      invariant 0 <= k <= |keys|
      invariant m !in keys[..k]
    {
      k := k + 1;
    }
    assert k == |keys| ==> keys[..k] == keys;
  }

  /** The counting loop of the analysis dialog: a dict from mood to count, filled in entry order. */
  method TallyMoods(entries: seq<Store.Entry>) returns (labels: seq<string>, sizes: seq<nat>)
    ensures labels == Labels(Moods(entries)) && sizes == Sizes(Moods(entries), labels)
    ensures NoDuplicates(labels)
  {
    ghost var moods := Moods(entries);
    labels, sizes := [], [];
    var i := 0;
    while i < |entries|
      invariant 0 <= i <= |entries|
      invariant labels == Labels(moods[..i]) && NoDuplicates(labels)
      invariant sizes == Sizes(moods[..i], labels)
    {
      var mood := entries[i].mood;
      assert moods[..i + 1] == moods[..i] + [mood];
      var k := KeyIndex(labels, mood);
      if k < |labels| {
        TallyIncrement(moods[..i], mood, k);
        sizes := sizes[k := sizes[k] + 1];
      } else {
        TallyNew(moods[..i], mood);
        labels := labels + [mood];
        sizes := sizes + [1];
      }
      i := i + 1;
    }
    assert moods[..i] == moods;
  }

  /** The table loop of the analysis dialog: one row per entry, in query order. */
  method TableRows(entries: seq<Store.Entry>) returns (rows: seq<Row>)
    ensures |rows| == |entries| && forall i :: 0 <= i < |entries| ==> rows[i] == RowOf(entries[i])
  {
    rows := [];
    var i := 0;
    while i < |entries|
      invariant 0 <= i <= |entries|
      invariant |rows| == i && forall j :: 0 <= j < i ==> rows[j] == RowOf(entries[j])
    {
      var e := entries[i];
      var notes := if e.notes.Some? && e.notes.value != "" then e.notes.value else "";
      rows := rows + [Row(e.date, e.mood, Decimal.IntToString(e.dayRating), notes, TierOf(e.dayRating))];
      i := i + 1;
    }
  }

  class AnalysisDialog {
    const db: Store.DatabaseManager
    var rows: seq<Row>
    var chart: Chart

    /** Opening the dialog loads the last days' entries. */
    constructor (db: Store.DatabaseManager, today: Calendar.Date)
      requires Calendar.IsValid(today) && Calendar.IsValid(Store.RecentStart(today, AnalysisDays))
      ensures this.db == db
      ensures var entries := Store.EntriesBetween(db.entries, Calendar.FullDate(Store.RecentStart(today, AnalysisDays)), Calendar.FullDate(today));
        chart == ChartOf(entries) && |rows| == |entries| && forall i :: 0 <= i < |entries| ==> rows[i] == RowOf(entries[i])
    {
      this.db := db;
      rows := [];
      chart := NoData;
      new;
      LoadData(today);
    }

    method LoadData(today: Calendar.Date)
      requires Calendar.IsValid(today) && Calendar.IsValid(Store.RecentStart(today, AnalysisDays))
      modifies this
      ensures var entries := Store.EntriesBetween(db.entries, Calendar.FullDate(Store.RecentStart(today, AnalysisDays)), Calendar.FullDate(today));
        chart == ChartOf(entries) && |rows| == |entries| && forall i :: 0 <= i < |entries| ==> rows[i] == RowOf(entries[i])
    {
      var entries := db.GetRecentEmotionalEntries(today, AnalysisDays);
      rows := [];
      if entries == [] {
        chart := NoData;
        return;
      }

      var labels, sizes := TallyMoods(entries);

      if |labels| > 0 {
        chart := Pie(labels, sizes);
      } else {
        chart := NoMoodData;
      }

      rows := TableRows(entries);
    }
  }

  // ---------------------------------------------------------------------
  // Saving an entry

  /** Message boxes the tracker raises. */
  datatype Notice = SelectMoodError | EntrySaved

  class EmotionalTracker {
    const db: Store.DatabaseManager
    var mood: string      // the combo box's value
    var rating: int       // the slider's value
    var notes: string     // the notes text
    var notices: seq<Notice>

    ghost predicate Valid()
      reads this
    {
      (mood == "" || mood in MoodChoices) && MinRating <= rating <= MaxRating
    }

    constructor (db: Store.DatabaseManager)
      ensures Valid() && this.db == db && mood == "" && rating == DefaultRating && notes == "" && notices == []
    {
      this.db := db;
      mood, rating, notes, notices := "", DefaultRating, "", [];
    }

    /**
     * Without a mood nothing is stored; otherwise one entry dated today is
     * added with the form's values and the form goes back to its defaults.
     */
    method OnSaveEntry(today: Calendar.Date, now: string)
      requires Valid() && db.Valid() && Calendar.IsValid(today)
      modifies this, db
      ensures Valid() && db.Valid()
      ensures old(mood) == "" ==>
        && notices == old(notices) + [SelectMoodError]
        && mood == old(mood) && rating == old(rating) && notes == old(notes)
        && db.entries == old(db.entries) && db.entrySeq == old(db.entrySeq)
      ensures old(mood) != "" ==>
        && notices == old(notices) + [EntrySaved]
        && mood == "" && rating == DefaultRating && notes == ""
        && db.entrySeq == old(db.entrySeq) + 1
        && db.entries == old(db.entries) + [Store.Entry(db.entrySeq, Calendar.FullDate(today), old(mood), old(rating), Some(old(notes)), now)]
        && old(mood) in MoodChoices && MinRating <= old(rating) <= MaxRating
      ensures db.tasks == old(db.tasks) && db.taskSeq == old(db.taskSeq)
    {
      if mood == "" {
        notices := notices + [SelectMoodError];
        return;
      }
      db.AddEmotionalEntry(mood, rating, notes, today, now);
      notices := notices + [EntrySaved];
      mood, rating, notes := "", DefaultRating, "";
    }
  }
}
