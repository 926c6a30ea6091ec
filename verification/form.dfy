/** The age form's state machine in src/FormData.tsx: the persisted record
    under the key "formData", rehydration when the component mounts, the
    submit handler and the clear button. Rendering is not modelled; the
    session keeps only what the logic reads and writes. */
module AgeForm {
  import opened Wrappers
  import opened Calendar
  import opened DateParsing
  import opened AgeCalc
  import opened Validation
  import opened Persistence

  /** The persisted pair: the raw input (`dataNascimento`) and the computed
      breakdown (`idadeCalculada`), if any. */
  datatype SavedRecord = SavedRecord(birthInput: string, age: Option<Age>)

  const StorageKey: string := "formData"
  const DefaultRecord: SavedRecord := SavedRecord("", None)

  /** `field` is the input's value, `shown` the breakdown on screen, `saved`
      the hook's in-memory copy of the record and `store` the local storage. */
  datatype Session = Session(field: string, shown: Option<Age>, saved: SavedRecord, store: Store<SavedRecord>)

  /** The mount effect copies the saved input back only when it is non-empty,
      and the saved breakdown only when there is one. */
  function Rehydrate(s: Session): (r: Session)
    ensures r.saved == s.saved && r.store == s.store
    ensures r.field == (if s.saved.birthInput != [] then s.saved.birthInput else s.field)
    ensures r.shown == (if s.saved.age.Some? then s.saved.age else s.shown)
  {
    var s1 := if s.saved.birthInput != [] then s.(field := s.saved.birthInput) else s;
    if s.saved.age.Some? then s1.(shown := s.saved.age) else s1
  }

  /** A page load: the hook reads the store, the form starts empty and the
      effect rehydrates it. */
  function Mount(store: Store<SavedRecord>): (r: Session)
    ensures r.store == store && r.saved == Load(store, StorageKey, DefaultRecord)
    ensures r.field == r.saved.birthInput && r.shown == r.saved.age
  {
    Rehydrate(Session([], None, Load(store, StorageKey, DefaultRecord), store))
  }

  /** Submitting `raw`: the form's value becomes `raw`; on a validation
      failure nothing else happens, otherwise the breakdown is shown and the
      pair (raw input, breakdown) is saved. The handler reads the clock twice:
      validation sees `checkedOn` and the breakdown, read afterwards, sees
      `computedOn`, which is never an earlier day. */
  function Submit(s: Session, raw: string, checkedOn: Date, computedOn: Date): (r: (Session, Outcome<ValidationError>))
    requires Valid(checkedOn) && Valid(computedOn) && !LexBefore(computedOn, checkedOn)
    ensures r.1 == Validate(raw, checkedOn)
    ensures r.0.field == raw
    ensures r.1.Fail? ==> r.0.shown == s.shown && r.0.saved == s.saved && r.0.store == s.store
    ensures r.1.Pass? ==> ParseDate(raw).Some?
    ensures r.1.Pass? ==>
      var age := Breakdown(ParseDate(raw).value, computedOn);
      && r.0.shown == Some(age)
      && r.0.saved == SavedRecord(raw, Some(age))
      && r.0.store == Save(s.store, StorageKey, SavedRecord(raw, Some(age)))
  {
    var verdict := Validate(raw, checkedOn);
    var typed := s.(field := raw);
    if verdict.Fail? then (typed, verdict)
    else
      var age := Breakdown(ParseDate(raw).value, computedOn);
      var record := SavedRecord(raw, Some(age));
      var saved := typed.(shown := Some(age), saved := record, store := Save(s.store, StorageKey, record));
      (Rehydrate(saved), verdict)
  }

  /** The clear button: the stored item is removed, the input emptied and the
      breakdown hidden. The hook's in-memory copy is not reset. Without
      storage `removeItem` throws and the handler stops before any change. */
  function ClearSaved(s: Session): (r: Session)
    ensures r.saved == s.saved
    ensures s.store.available ==> r.field == [] && r.shown == None
    ensures s.store.available ==> r.store == Remove(s.store, StorageKey)
    ensures !s.store.available ==> r == s
  {
    if s.store.available
    then s.(store := Remove(s.store, StorageKey), field := [], shown := None)
    else s
  }

  /** After an accepted submission a reload shows the same input and the same
      breakdown without recomputing it. */
  lemma ReloadAfterSubmit(s: Session, raw: string, checkedOn: Date, computedOn: Date)
    requires Valid(checkedOn) && Valid(computedOn) && !LexBefore(computedOn, checkedOn)
    requires s.store.available
    ensures Validate(raw, checkedOn) == Pass ==>
      var after := Submit(s, raw, checkedOn, computedOn).0;
      var reloaded := Mount(after.store);
      reloaded.field == raw && reloaded.shown == after.shown
      && reloaded.shown == Some(Breakdown(ParseDate(raw).value, computedOn))
  {
    if Validate(raw, checkedOn) == Pass {
      var record := SavedRecord(raw, Some(Breakdown(ParseDate(raw).value, computedOn)));
      SaveThenLoad(s.store, StorageKey, record, DefaultRecord);
    }
  }

  /** A submission that straddles midnight: today's own date passes
      validation, and the breakdown, taken on the next day, is one day. */
  lemma SubmitAcrossMidnight(s: Session, today: Date)
    requires Valid(today) && today.year >= 0 && InRange(today)
    ensures var r := Submit(s, FormatIso(today), today, NextDay(today));
      r.1 == Pass && r.0.shown == Some(Age(0, 0, 1))
  {
    TodayPasses(today);
    ParseFormatRoundTrip(today);
    OneDayOld(today);
  }

  /** After clearing, a reload starts from the default record: an empty input
      and nothing shown; clearing twice is the same as clearing once. */
  lemma ReloadAfterClear(s: Session)
    requires s.store.available
    ensures var reloaded := Mount(ClearSaved(s).store);
      reloaded.field == [] && reloaded.shown == None && reloaded.saved == DefaultRecord
    ensures ClearSaved(ClearSaved(s)) == ClearSaved(s)
  {
    RemoveThenLoad(s.store, StorageKey, DefaultRecord);
  }

  /** A rejected submission leaves what a reload would show unchanged. */
  lemma RejectedSubmitKeepsStore(s: Session, raw: string, checkedOn: Date, computedOn: Date)
    requires Valid(checkedOn) && Valid(computedOn) && !LexBefore(computedOn, checkedOn)
    requires Validate(raw, checkedOn).Fail?
    ensures Mount(Submit(s, raw, checkedOn, computedOn).0.store) == Mount(s.store)
  {
  }

  /** After clearing, the clear button stays visible: the hook's copy still
      holds the old non-empty input although the store no longer does. */
  lemma ClearLeavesStaleCopy(s: Session)
    requires s.store.available && s.saved.birthInput != []
    ensures ClearSaved(s).saved.birthInput != []
    ensures Load(ClearSaved(s).store, StorageKey, DefaultRecord) == DefaultRecord
  {
    RemoveThenLoad(s.store, StorageKey, DefaultRecord);
  }
}
