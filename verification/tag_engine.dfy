/** The two INSERT … SELECT statements of the tag engine over SQL's three-valued logic,
    the documented meaning of a tag, and the set of links that any history of ingesting
    messages and re-applying tags leaves behind. */
module TagEngine {
  import opened Prelude
  import opened Regex
  import opened TagPattern

  datatype RuleKind = SubjectContains | BodyContains | SenderContains | SenderExact
  datatype Rule = Rule(kind: RuleKind, pattern: string)
  datatype Mode = AnyRule | AllRules
  datatype Tag = Tag(mode: Mode, rules: seq<Rule>)

  /** The columns that rules read; `subject`, `body_html` and `from_name` are nullable. */
  datatype Message = Message(subject: Option<string>, body: string, html: Option<string>,
                             sender: string, senderName: Option<string>)

  // ---------------------------------------------------------------- three-valued logic

  datatype Tri = True | False | Unknown

  function Is(b: bool): Tri { if b then True else False }

  function And3(a: Tri, b: Tri): Tri {
    if a == False || b == False then False else if a == True && b == True then True else Unknown
  }

  function Or3(a: Tri, b: Tri): Tri {
    if a == True || b == True then True else if a == False && b == False then False else Unknown
  }

  function Not3(a: Tri): Tri {
    match a
    case True => False
    case False => True
    case Unknown => Unknown
  }

  /** `norm(cell) ~ pattern`: NULL in, NULL out. */
  ghost function Contains3(ab: Alphabet, cell: Option<string>, pattern: string): Tri {
    match cell
    case None => Unknown
    case Some(text) => Is(PgContains(ab, pattern, text))
  }

  // ---------------------------------------------------------------- the statements

  /** The disjunction of four guarded tests inside both subqueries. */
  function OneOf(kind: RuleKind, subject: Tri, body: Tri, sender: Tri, exact: Tri): Tri {
    Or3(And3(Is(kind == SubjectContains), subject),
    Or3(And3(Is(kind == BodyContains), body),
    Or3(And3(Is(kind == SenderContains), sender),
        And3(Is(kind == SenderExact), exact))))
  }

  /** The disjunction on one rule and one row. */
  ghost function RulePredicate(ab: Alphabet, r: Rule, m: Message): Tri {
    OneOf(r.kind,
          Contains3(ab, m.subject, r.pattern),
          Or3(Contains3(ab, Some(m.body), r.pattern), Contains3(ab, Some(StripTags(m.html.GetOr(""))), r.pattern)),
          Or3(Contains3(ab, Some(m.sender), r.pattern), Contains3(ab, Some(m.senderName.GetOr("")), r.pattern)),
          Is(ab.lower(m.sender) == ab.lower(r.pattern)))
  }

  /** EXISTS keeps the rows on which its condition is true. */
  ghost predicate SomeRuleTrue(ab: Alphabet, tag: Tag, m: Message) {
    exists k | 0 <= k < |tag.rules| :: RulePredicate(ab, tag.rules[k], m) == True
  }

  ghost predicate SomeRuleNotTrue(ab: Alphabet, tag: Tag, m: Message) {
    exists k | 0 <= k < |tag.rules| :: Not3(RulePredicate(ab, tag.rules[k], m)) == True
  }

  /** The WHERE clause shared by both statements; the row is inserted when it is true. */
  ghost function Where(ab: Alphabet, tag: Tag, m: Message): Tri {
    Or3(And3(Is(tag.mode == AnyRule), Is(SomeRuleTrue(ab, tag, m))),
        And3(Is(tag.mode == AllRules),
             And3(Is(tag.rules != []), Not3(Is(SomeRuleNotTrue(ab, tag, m))))))
  }

  /** What the ingest path binds: an absent subject becomes the empty text. */
  function Bound(m: Message): Message { m.(subject := Some(m.subject.GetOr(""))) }

  datatype Db = Db(messages: map<int, Message>, tags: map<int, Tag>, links: set<(int, int)>)

  /** APPLY_TAGS_TO_MESSAGE */
  ghost function TagsForMessage(ab: Alphabet, db: Db, id: int, m: Message): set<(int, int)> {
    set t | t in db.tags && Where(ab, db.tags[t], Bound(m)) == True :: (id, t)
  }

  /** APPLY_TAG_TO_EXISTING; for an id that names no tag the scalar subquery is NULL and
      nothing is selected. */
  ghost function MessagesForTag(ab: Alphabet, db: Db, t: int): set<(int, int)> {
    if t !in db.tags then {}
    else set m | m in db.messages && Where(ab, db.tags[t], db.messages[m]) == True :: (m, t)
  }

  datatype Step =
    | Ingest(id: int, message: Message, tagging: bool)  // tagging: whether the savepoint survived
    | ApplyTag(tag: int)

  /** ON CONFLICT DO NOTHING makes both inserts set unions. A duplicate message is skipped. */
  ghost function Next(ab: Alphabet, db: Db, s: Step): Db {
    match s
    case Ingest(id, m, tagging) =>
      if id in db.messages then db
      else db.(messages := db.messages[id := m],
               links := if tagging then db.links + TagsForMessage(ab, db, id, m) else db.links)
    case ApplyTag(t) => db.(links := db.links + MessagesForTag(ab, db, t))
  }

  ghost function Run(ab: Alphabet, db: Db, steps: seq<Step>): Db
    decreases |steps|
  {
    if steps == [] then db else Run(ab, Next(ab, db, steps[0]), steps[1..])
  }

  // ---------------------------------------------------------------- documented meaning

  ghost predicate Says(ab: Alphabet, text: string, pattern: string) {
    OccursAsWord(ab, Norm(ab, pattern), Norm(ab, text))
  }

  ghost predicate RuleHolds(ab: Alphabet, r: Rule, m: Message) {
    match r.kind
    case SubjectContains => m.subject.Some? && Says(ab, m.subject.value, r.pattern)
    case BodyContains => Says(ab, m.body, r.pattern) || Says(ab, StripTags(m.html.GetOr("")), r.pattern)
    case SenderContains => Says(ab, m.sender, r.pattern) || Says(ab, m.senderName.GetOr(""), r.pattern)
    case SenderExact => ab.lower(m.sender) == ab.lower(r.pattern)
  }

  /** any: some rule holds; all: there is a rule and every rule holds. */
  ghost predicate TagHolds(ab: Alphabet, tag: Tag, m: Message) {
    match tag.mode
    case AnyRule => exists k | 0 <= k < |tag.rules| :: RuleHolds(ab, tag.rules[k], m)
    case AllRules => tag.rules != [] && forall k | 0 <= k < |tag.rules| :: RuleHolds(ab, tag.rules[k], m)
  }

  ghost predicate OthersHold(ab: Alphabet, tag: Tag, m: Message) {
    forall k | 0 <= k < |tag.rules| :: tag.rules[k].kind == SubjectContains || RuleHolds(ab, tag.rules[k], m)
  }

  ghost predicate HasSubjectRule(tag: Tag) {
    exists k | 0 <= k < |tag.rules| :: tag.rules[k].kind == SubjectContains
  }

  // ---------------------------------------------------------------- WHERE against meaning

  /** Whatever the other three tests say, even Unknown, the test of the rule's own kind
      decides. */
  lemma OwnKindDecides(kind: RuleKind, subject: Tri, body: Tri, sender: Tri, exact: Tri)
    ensures OneOf(kind, subject, body, sender, exact) ==
      match kind
      case SubjectContains => subject
      case BodyContains => body
      case SenderContains => sender
      case SenderExact => exact
  {
  }

  lemma Contains3Means(ab: Alphabet, text: string, pattern: string)
    requires ab.Valid()
    ensures Contains3(ab, Some(text), pattern) == Is(Says(ab, text, pattern))
  {
    PgContainsIsWholeWord(ab, pattern, text);
  }

  lemma RulePredicateMeans(ab: Alphabet, r: Rule, m: Message)
    requires ab.Valid()
    ensures m.subject.None? && r.kind == SubjectContains ==> RulePredicate(ab, r, m) == Unknown
    ensures m.subject.Some? || r.kind != SubjectContains ==> RulePredicate(ab, r, m) == Is(RuleHolds(ab, r, m))
  {
    var html, name, p := StripTags(m.html.GetOr("")), m.senderName.GetOr(""), r.pattern;
    OwnKindDecides(r.kind, Contains3(ab, m.subject, p),
                   Or3(Contains3(ab, Some(m.body), p), Contains3(ab, Some(html), p)),
                   Or3(Contains3(ab, Some(m.sender), p), Contains3(ab, Some(name), p)),
                   Is(ab.lower(m.sender) == ab.lower(p)));
    match r.kind {
      case SubjectContains =>
        if m.subject.Some? { Contains3Means(ab, m.subject.value, p); }
      case BodyContains =>
        Contains3Means(ab, m.body, p);
        Contains3Means(ab, html, p);
      case SenderContains =>
        Contains3Means(ab, m.sender, p);
        Contains3Means(ab, name, p);
      case SenderExact =>
    }
  }

  lemma RulesMean(ab: Alphabet, tag: Tag, m: Message)
    requires ab.Valid()
    ensures forall k | 0 <= k < |tag.rules| :: RulePredicate(ab, tag.rules[k], m) ==
              if m.subject.None? && tag.rules[k].kind == SubjectContains then Unknown
              else Is(RuleHolds(ab, tag.rules[k], m))
  {
    forall k | 0 <= k < |tag.rules|
      ensures RulePredicate(ab, tag.rules[k], m) ==
              if m.subject.None? && tag.rules[k].kind == SubjectContains then Unknown
              else Is(RuleHolds(ab, tag.rules[k], m))
    {
      RulePredicateMeans(ab, tag.rules[k], m);
    }
  }

  /** The clause is never unknown, and what it selects is: with a subject, the documented
      meaning; without one, the documented meaning for `any`, but for `all` the subject
      rules are skipped. */
  lemma WhereMeans(ab: Alphabet, tag: Tag, m: Message)
    requires ab.Valid()
    ensures Where(ab, tag, m) != Unknown
    ensures m.subject.Some? || tag.mode == AnyRule ==> (Where(ab, tag, m) == True <==> TagHolds(ab, tag, m))
    ensures m.subject.None? && tag.mode == AllRules ==>
              (Where(ab, tag, m) == True <==> tag.rules != [] && OthersHold(ab, tag, m))
  {
    RulesMean(ab, tag, m);
  }

  /** On which columns a rule of each kind is true: a whole word in one of its texts, or the
      same sender whatever the case. */
  lemma RuleInColumns(ab: Alphabet, p: string, m: Message)
    requires ab.Valid()
    ensures RulePredicate(ab, Rule(SubjectContains, p), m) == True <==>
      m.subject.Some? && OccursAsWord(ab, Norm(ab, p), Norm(ab, m.subject.value))
    ensures RulePredicate(ab, Rule(BodyContains, p), m) == True <==>
      || OccursAsWord(ab, Norm(ab, p), Norm(ab, m.body))
      || OccursAsWord(ab, Norm(ab, p), Norm(ab, StripTags(if m.html.Some? then m.html.value else "")))
    ensures RulePredicate(ab, Rule(SenderContains, p), m) == True <==>
      || OccursAsWord(ab, Norm(ab, p), Norm(ab, m.sender))
      || OccursAsWord(ab, Norm(ab, p), Norm(ab, if m.senderName.Some? then m.senderName.value else ""))
    ensures RulePredicate(ab, Rule(SenderExact, p), m) == True <==> ab.lower(m.sender) == ab.lower(p)
  {
    RulePredicateMeans(ab, Rule(SubjectContains, p), m);
    RulePredicateMeans(ab, Rule(BodyContains, p), m);
    RulePredicateMeans(ab, Rule(SenderContains, p), m);
    RulePredicateMeans(ab, Rule(SenderExact, p), m);
  }

  /** Which rules a tag needs, on arrival and on re-application: one that is true, or all of
      them and at least one; for `all`, a rule that is unknown does not stand in the way. */
  lemma WhereByRules(ab: Alphabet, rules: seq<Rule>, m: Message)
    requires ab.Valid()
    ensures Where(ab, Tag(AnyRule, rules), m) == True <==>
      exists k | 0 <= k < |rules| :: RulePredicate(ab, rules[k], m) == True
    ensures Where(ab, Tag(AllRules, rules), m) == True <==>
      |rules| > 0 && forall k | 0 <= k < |rules| :: RulePredicate(ab, rules[k], m) != False
  {
    WhereMeans(ab, Tag(AnyRule, rules), m);
    RulesMean(ab, Tag(AllRules, rules), m);
  }

  ghost predicate SubjectRuleWith(tag: Tag, empty: bool) {
    exists k | 0 <= k < |tag.rules| :: tag.rules[k].kind == SubjectContains && (tag.rules[k].pattern == "") == empty
  }

  ghost predicate NoOtherHolds(ab: Alphabet, tag: Tag, m: Message) {
    forall k | 0 <= k < |tag.rules| :: tag.rules[k].kind == SubjectContains || !RuleHolds(ab, tag.rules[k], m)
  }

  lemma BoundRule(ab: Alphabet, r: Rule, m: Message)
    requires ab.Valid()
    ensures m.subject.Some? || r.kind != SubjectContains ==> (RuleHolds(ab, r, Bound(m)) <==> RuleHolds(ab, r, m))
    ensures m.subject.None? && r.kind == SubjectContains ==> (RuleHolds(ab, r, Bound(m)) <==> r.pattern == "")
  {
    EmptyTextContains(ab, r.pattern);
    PgContainsIsWholeWord(ab, r.pattern, "");
  }

  lemma BoundRules(ab: Alphabet, tag: Tag, m: Message)
    requires ab.Valid()
    ensures forall k | 0 <= k < |tag.rules| :: RuleHolds(ab, tag.rules[k], Bound(m)) ==
              if m.subject.None? && tag.rules[k].kind == SubjectContains then tag.rules[k].pattern == ""
              else RuleHolds(ab, tag.rules[k], m)
  {
    forall k | 0 <= k < |tag.rules|
      ensures RuleHolds(ab, tag.rules[k], Bound(m)) ==
              if m.subject.None? && tag.rules[k].kind == SubjectContains then tag.rules[k].pattern == ""
              else RuleHolds(ab, tag.rules[k], m)
    {
      BoundRule(ab, tag.rules[k], m);
    }
  }

  /** When re-application tags what the documentation does not. */
  ghost predicate ApplyDeparts(ab: Alphabet, tag: Tag, m: Message) {
    m.subject.None? && tag.mode == AllRules && HasSubjectRule(tag) && OthersHold(ab, tag, m)
  }

  /** When arrival does: only on an empty subject pattern, which the empty text contains. */
  ghost predicate IngestDeparts(ab: Alphabet, tag: Tag, m: Message) {
    && m.subject.None?
    && SubjectRuleWith(tag, true)
    && match tag.mode
       case AnyRule => NoOtherHolds(ab, tag, m)
       case AllRules => !SubjectRuleWith(tag, false) && OthersHold(ab, tag, m)
  }

  /** Exactly when apply-to-existing departs from the documented meaning: an `all` tag
      with a subject rule, on a message without a subject on which its other rules hold.
      It then selects too much, never too little. */
  lemma ApplyMeansDocumented(ab: Alphabet, tag: Tag, m: Message)
    requires ab.Valid()
    ensures (Where(ab, tag, m) == True <==> TagHolds(ab, tag, m)) <==> !ApplyDeparts(ab, tag, m)
    ensures TagHolds(ab, tag, m) ==> Where(ab, tag, m) == True
  {
    WhereMeans(ab, tag, m);
    if m.subject.None? && HasSubjectRule(tag) {
      var k :| 0 <= k < |tag.rules| && tag.rules[k].kind == SubjectContains;
      assert !RuleHolds(ab, tag.rules[k], m);
    }
  }

  /** Exactly when tagging on arrival departs from it: no subject, an empty subject
      pattern, and either an `any` tag none of whose other rules holds, or an `all` tag
      with no other subject pattern whose other rules hold. Again only too much. */
  lemma IngestMeansDocumented(ab: Alphabet, tag: Tag, m: Message)
    requires ab.Valid()
    ensures (Where(ab, tag, Bound(m)) == True <==> TagHolds(ab, tag, m)) <==> !IngestDeparts(ab, tag, m)
    ensures TagHolds(ab, tag, m) ==> Where(ab, tag, Bound(m)) == True
  {
    WhereMeans(ab, tag, Bound(m));
    BoundRules(ab, tag, m);
    if m.subject.None? && tag.mode == AllRules && SubjectRuleWith(tag, true) {
      var k :| 0 <= k < |tag.rules| && tag.rules[k].kind == SubjectContains;
      assert !RuleHolds(ab, tag.rules[k], m);
    }
  }

  /** The two statements give a message and a tag the same verdict unless the subject is
      absent and either an `any` tag rests on an empty subject pattern alone, or an `all`
      tag has a non-empty subject pattern and its other rules hold. */
  lemma IngestAgreesWithApply(ab: Alphabet, tag: Tag, m: Message)
    requires ab.Valid()
    ensures (Where(ab, tag, Bound(m)) == True <==> Where(ab, tag, m) == True) <==> PathsAgree(ab, tag, m)
  {
    WhereMeans(ab, tag, m);
    WhereMeans(ab, tag, Bound(m));
    BoundRules(ab, tag, m);
  }

  ghost predicate PathsAgree(ab: Alphabet, tag: Tag, m: Message) {
    m.subject.None? ==>
      match tag.mode
      case AnyRule => SubjectRuleWith(tag, true) ==> !NoOtherHolds(ab, tag, m)
      case AllRules => SubjectRuleWith(tag, false) ==> !OthersHold(ab, tag, m)
  }

  /** The patterns that the interface accepts are not empty. */
  predicate Accepted(tag: Tag) { forall k | 0 <= k < |tag.rules| :: tag.rules[k].pattern != "" }

  /** For the patterns that the interface accepts, arrival is always right, whatever the
      subject, and re-application departs from it exactly where it departs from the
      documentation. */
  lemma AcceptedTags(ab: Alphabet, tag: Tag, m: Message)
    requires ab.Valid() && Accepted(tag)
    ensures Where(ab, tag, Bound(m)) == True <==> TagHolds(ab, tag, m)
    ensures PathsAgree(ab, tag, m) <==> !ApplyDeparts(ab, tag, m)
  {
    IngestMeansDocumented(ab, tag, m);
    if HasSubjectRule(tag) {
      var k :| 0 <= k < |tag.rules| && tag.rules[k].kind == SubjectContains;
      assert (tag.rules[k].pattern == "") == false;
    }
  }

  // ---------------------------------------------------------------- histories

  /** The pairs that a history's ingest steps examined. */
  ghost function Ingested(ab: Alphabet, db: Db, steps: seq<Step>): set<(int, int)>
    decreases |steps|
  {
    if steps == [] then {}
    else
      var rest := Ingested(ab, Next(ab, db, steps[0]), steps[1..]);
      if steps[0].Ingest? && steps[0].tagging && steps[0].id !in db.messages
      then rest + set t | t in db.tags :: (steps[0].id, t)
      else rest
  }

  /** The pairs that its apply-to-existing steps examined. */
  ghost function Applied(ab: Alphabet, db: Db, steps: seq<Step>): set<(int, int)>
    decreases |steps|
  {
    if steps == [] then {}
    else
      var rest := Applied(ab, Next(ab, db, steps[0]), steps[1..]);
      if steps[0].ApplyTag? && steps[0].tag in db.tags
      then rest + set m | m in db.messages :: (m, steps[0].tag)
      else rest
  }

  /** Messages and tags are never changed or lost, and what is examined exists at the end. */
  lemma {:induction false} RunKeeps(ab: Alphabet, db: Db, steps: seq<Step>)
    decreases |steps|
    ensures Run(ab, db, steps).tags == db.tags
    ensures db.links <= Run(ab, db, steps).links
    ensures forall id | id in db.messages ::
              id in Run(ab, db, steps).messages && Run(ab, db, steps).messages[id] == db.messages[id]
    ensures forall p | p in Ingested(ab, db, steps) + Applied(ab, db, steps) ::
              p.0 in Run(ab, db, steps).messages && p.1 in db.tags
  {
    if steps != [] {
      var next := Next(ab, db, steps[0]);
      RunKeeps(ab, next, steps[1..]);
      assert forall id | id in db.messages :: id in next.messages && next.messages[id] == db.messages[id];
      assert steps[0].Ingest? ==> steps[0].id in next.messages;
    }
  }

  /** A new message is stored as it came, a subject that is absent staying so, and later
      arrivals of its id change nothing. */
  lemma {:induction false} FirstArrivalStays(ab: Alphabet, db: Db, steps: seq<Step>, k: nat)
    requires k < |steps| && steps[k].Ingest? && steps[k].id !in db.messages
    requires forall j | 0 <= j < k && steps[j].Ingest? :: steps[j].id != steps[k].id
    ensures var end := Run(ab, db, steps);
      steps[k].id in end.messages && end.messages[steps[k].id] == steps[k].message
    decreases |steps|
  {
    var next := Next(ab, db, steps[0]);
    if k == 0 {
      RunKeeps(ab, next, steps[1..]);
    } else {
      assert steps[1..][k - 1] == steps[k];
      assert forall j | 0 <= j < k - 1 :: steps[1..][j] == steps[j + 1];
      FirstArrivalStays(ab, next, steps[1..], k - 1);
    }
  }

  /** Nothing else is stored. */
  lemma {:induction false} OnlyArrivalsAreStored(ab: Alphabet, db: Db, steps: seq<Step>, id: int)
    requires id in Run(ab, db, steps).messages && id !in db.messages
    ensures exists k | 0 <= k < |steps| :: steps[k].Ingest? && steps[k].id == id
    decreases |steps|
  {
    var next := Next(ab, db, steps[0]);
    if id in next.messages {
      assert steps[0].Ingest? && steps[0].id == id;
    } else {
      OnlyArrivalsAreStored(ab, next, steps[1..], id);
      var k :| 0 <= k < |steps[1..]| && steps[1..][k].Ingest? && steps[1..][k].id == id;
      assert steps[k + 1] == steps[1..][k];
    }
  }

  ghost predicate IngestSelects(ab: Alphabet, db: Db, p: (int, int)) {
    p.0 in db.messages && p.1 in db.tags && Where(ab, db.tags[p.1], Bound(db.messages[p.0])) == True
  }

  ghost predicate ApplySelects(ab: Alphabet, db: Db, p: (int, int)) {
    p.0 in db.messages && p.1 in db.tags && Where(ab, db.tags[p.1], db.messages[p.0]) == True
  }

  /** After any history the links are the prior ones, plus the examined pairs that the
      examining statement selects; the order of the steps leaves no other trace. */
  lemma {:induction false} RunLinks(ab: Alphabet, db: Db, steps: seq<Step>, p: (int, int))
    ensures p in Run(ab, db, steps).links
       <==> (|| p in db.links
             || (p in Ingested(ab, db, steps) && IngestSelects(ab, Run(ab, db, steps), p))
             || (p in Applied(ab, db, steps) && ApplySelects(ab, Run(ab, db, steps), p)))
    decreases |steps|
  {
    if steps != [] {
      var s := steps[0];
      var next := Next(ab, db, s);
      RunLinks(ab, next, steps[1..], p);
      RunKeeps(ab, next, steps[1..]);
      FirstStep(ab, db, s, p);
      assert p == (p.0, p.1);
    }
  }

  lemma InTagsForMessage(ab: Alphabet, db: Db, id: int, m: Message, p: (int, int))
    ensures p in TagsForMessage(ab, db, id, m)
       <==> p.0 == id && p.1 in db.tags && Where(ab, db.tags[p.1], Bound(m)) == True
  {
    var (i, t) := p;
    if i == id && t in db.tags && Where(ab, db.tags[t], Bound(m)) == True {
      assert (id, t) in TagsForMessage(ab, db, id, m);
    }
  }

  lemma InMessagesForTag(ab: Alphabet, db: Db, t: int, p: (int, int))
    ensures p in MessagesForTag(ab, db, t) <==> p.1 == t && ApplySelects(ab, db, p)
  {
    var (m, u) := p;
    if u == t && ApplySelects(ab, db, p) {
      assert (m, t) in MessagesForTag(ab, db, t);
    }
  }

  ghost predicate Examines(db: Db, s: Step, p: (int, int)) {
    match s
    case Ingest(id, _, tagging) => tagging && id !in db.messages && p.0 == id && p.1 in db.tags
    case ApplyTag(t) => t in db.tags && p.0 in db.messages && p.1 == t
  }

  lemma FirstStep(ab: Alphabet, db: Db, s: Step, p: (int, int))
    ensures p in Next(ab, db, s).links
       <==> (p in db.links
             || (Examines(db, s, p) && if s.Ingest? then IngestSelects(ab, Next(ab, db, s), p)
                                                    else ApplySelects(ab, Next(ab, db, s), p)))
  {
    match s
    case Ingest(id, m, tagging) => InTagsForMessage(ab, db, id, m, p);
    case ApplyTag(t) => InMessagesForTag(ab, db, t, p);
  }

  /** The pairs that the documentation tags. */
  ghost function Meant(ab: Alphabet, db: Db): set<(int, int)> {
    set m, t | m in db.messages && t in db.tags && TagHolds(ab, db.tags[t], db.messages[m]) :: (m, t)
  }

  /** Neither statement examined a new pair on which it departs from the documentation. */
  ghost predicate NoDeparture(ab: Alphabet, db: Db, steps: seq<Step>) {
    var end := Run(ab, db, steps);
    forall m, t | m in end.messages && t in end.tags && (m, t) !in db.links ::
      && ((m, t) in Ingested(ab, db, steps) ==> !IngestDeparts(ab, end.tags[t], end.messages[m]))
      && ((m, t) in Applied(ab, db, steps) ==> !ApplyDeparts(ab, end.tags[t], end.messages[m]))
  }

  ghost predicate NoneMissed(ab: Alphabet, db: Db, steps: seq<Step>) {
    var end := Run(ab, db, steps);
    forall m, t | m in end.messages && t in end.tags && TagHolds(ab, end.tags[t], end.messages[m]) ::
      (m, t) in db.links || (m, t) in Ingested(ab, db, steps) || (m, t) in Applied(ab, db, steps)
  }

  /** One pair: whether the history leaves it with the link it should have. */
  lemma PairIsRight(ab: Alphabet, db: Db, steps: seq<Step>, m: int, t: int)
    requires ab.Valid()
    requires var end := Run(ab, db, steps); m in end.messages && t in end.tags && (m, t) !in db.links
    ensures var end := Run(ab, db, steps);
      var (tag, message) := (end.tags[t], end.messages[m]);
      var byIngest, byApply := (m, t) in Ingested(ab, db, steps), (m, t) in Applied(ab, db, steps);
      ((m, t) in end.links <==> TagHolds(ab, tag, message))
      <==> && (byIngest ==> !IngestDeparts(ab, tag, message))
           && (byApply ==> !ApplyDeparts(ab, tag, message))
           && (TagHolds(ab, tag, message) ==> byIngest || byApply)
  {
    var end := Run(ab, db, steps);
    RunLinks(ab, db, steps, (m, t));
    IngestMeansDocumented(ab, end.tags[t], end.messages[m]);
    ApplyMeansDocumented(ab, end.tags[t], end.messages[m]);
  }

  lemma InMeant(ab: Alphabet, db: Db, p: (int, int))
    ensures p in Meant(ab, db) <==> p.0 in db.messages && p.1 in db.tags && TagHolds(ab, db.tags[p.1], db.messages[p.0])
  {
    var (m, t) := p;
    if m in db.messages && t in db.tags && TagHolds(ab, db.tags[t], db.messages[m]) { assert (m, t) in Meant(ab, db); }
  }

  lemma LinksExist(ab: Alphabet, db: Db, steps: seq<Step>, p: (int, int))
    requires p in Run(ab, db, steps).links && p !in db.links
    ensures p.0 in Run(ab, db, steps).messages && p.1 in Run(ab, db, steps).tags
  {
    RunLinks(ab, db, steps, p);
    RunKeeps(ab, db, steps);
  }

  /** Exactly when a history ends with the documented links joined with the prior ones:
      no documented pair went unexamined, and no new pair was examined by a statement that
      departs from the documentation on it. */
  lemma EndsAsMeantIff(ab: Alphabet, db: Db, steps: seq<Step>)
    requires ab.Valid()
    ensures var end := Run(ab, db, steps);
      end.links == db.links + Meant(ab, end) <==> NoneMissed(ab, db, steps) && NoDeparture(ab, db, steps)
  {
    var end := Run(ab, db, steps);
    RunKeeps(ab, db, steps);
    if NoneMissed(ab, db, steps) && NoDeparture(ab, db, steps) {
      forall p: (int, int) ensures p in end.links <==> p in db.links + Meant(ab, end) {
        InMeant(ab, end, p);
        if p !in db.links {
          if p in end.links { LinksExist(ab, db, steps, p); }
          if p.0 in end.messages && p.1 in end.tags { PairIsRight(ab, db, steps, p.0, p.1); }
        }
      }
    }
    if end.links == db.links + Meant(ab, end) {
      forall m, t | m in end.messages && t in end.tags && (m, t) !in db.links
        ensures (m, t) in Ingested(ab, db, steps) ==> !IngestDeparts(ab, end.tags[t], end.messages[m])
        ensures (m, t) in Applied(ab, db, steps) ==> !ApplyDeparts(ab, end.tags[t], end.messages[m])
        ensures TagHolds(ab, end.tags[t], end.messages[m]) ==>
          (m, t) in Ingested(ab, db, steps) || (m, t) in Applied(ab, db, steps)
      {
        InMeant(ab, end, (m, t));
        PairIsRight(ab, db, steps, m, t);
      }
    }
  }

  /** Convergence: any interleaving that examines every pair at least once, by either
      statement, ends with the prior links and the documented ones exactly if neither
      statement departs from the documentation on a new pair that it examined. */
  lemma RunConverges(ab: Alphabet, db: Db, steps: seq<Step>)
    requires ab.Valid()
    requires var end := Run(ab, db, steps);
      forall m, t | m in end.messages && t in end.tags :: (m, t) in Ingested(ab, db, steps) + Applied(ab, db, steps)
    ensures var end := Run(ab, db, steps);
      end.links == db.links + Meant(ab, end) <==> NoDeparture(ab, db, steps)
  {
    EndsAsMeantIff(ab, db, steps);
  }

  lemma {:induction false} ArrivalsAreIngested(ab: Alphabet, db: Db, steps: seq<Step>, m: int, t: int)
    requires forall k | 0 <= k < |steps| && steps[k].Ingest? :: steps[k].tagging
    requires m in Run(ab, db, steps).messages && m !in db.messages && t in db.tags
    ensures (m, t) in Ingested(ab, db, steps)
    decreases |steps|
  {
    var next := Next(ab, db, steps[0]);
    if m !in next.messages { ArrivalsAreIngested(ab, next, steps[1..], m, t); }
  }

  /** With every ingest tagged a complete store stays complete through every history,
      whatever the subjects; and it gains no link beyond the documented ones exactly if
      neither statement departs on a new pair. */
  lemma TaggingStaysComplete(ab: Alphabet, db: Db, steps: seq<Step>)
    requires ab.Valid() && Meant(ab, db) <= db.links
    requires forall k | 0 <= k < |steps| && steps[k].Ingest? :: steps[k].tagging
    ensures var end := Run(ab, db, steps);
      && Meant(ab, end) <= end.links
      && (end.links == db.links + Meant(ab, end) <==> NoDeparture(ab, db, steps))
  {
    var end := Run(ab, db, steps);
    RunKeeps(ab, db, steps);
    forall m, t | m in end.messages && t in end.tags && TagHolds(ab, end.tags[t], end.messages[m])
      ensures (m, t) in end.links && ((m, t) in db.links || (m, t) in Ingested(ab, db, steps))
    {
      if m in db.messages {
        InMeant(ab, db, (m, t));
      } else {
        ArrivalsAreIngested(ab, db, steps, m, t);
        RunLinks(ab, db, steps, (m, t));
        IngestMeansDocumented(ab, end.tags[t], end.messages[m]);
      }
    }
    EndsAsMeantIff(ab, db, steps);
  }

  // ---------------------------------------------------------------- repeating a step

  /** The link that a repeated re-application would add is there already: it was there
      before, or the tag was re-applied after the message came, or the message was tagged
      on arrival and the two statements agree on it. */
  ghost predicate CaughtUp(ab: Alphabet, db: Db, steps: seq<Step>, m: int, t: int)
    requires var end := Run(ab, db, steps); m in end.messages && t in end.tags
  {
    var end := Run(ab, db, steps);
    || (m, t) in db.links
    || (m, t) in Applied(ab, db, steps)
    || ((m, t) in Ingested(ab, db, steps) && PathsAgree(ab, end.tags[t], end.messages[m]))
  }

  /** Repeating a step after any history: an ingest changes nothing, and a re-application
      changes nothing exactly if it has caught up with every matching message that arrived
      in between. */
  lemma StepIsIdempotent(ab: Alphabet, db: Db, s: Step, steps: seq<Step>)
    requires ab.Valid()
    ensures var next := Next(ab, db, s);
      var end := Run(ab, next, steps);
      Next(ab, end, s) == end <==>
        (s.ApplyTag? ==>
           forall m | m in end.messages && m !in db.messages && ApplySelects(ab, end, (m, s.tag)) ::
             CaughtUp(ab, next, steps, m, s.tag))
  {
    var next := Next(ab, db, s);
    var end := Run(ab, next, steps);
    RunKeeps(ab, next, steps);
    match s
    case Ingest(_, _, _) =>
    case ApplyTag(t) =>
      forall m | m in end.messages && ApplySelects(ab, end, (m, t))
        ensures (m, t) in end.links <==> (m in db.messages || CaughtUp(ab, next, steps, m, t))
      {
        LinkedByNow(ab, db, steps, m, t);
      }
      RepeatedApply(ab, end, t);
  }

  lemma RepeatedApply(ab: Alphabet, db: Db, t: int)
    ensures Next(ab, db, ApplyTag(t)) == db <==>
      forall m | m in db.messages && ApplySelects(ab, db, (m, t)) :: (m, t) in db.links
  {
    forall p: (int, int) ensures p in MessagesForTag(ab, db, t) <==> p.1 == t && ApplySelects(ab, db, p) {
      InMessagesForTag(ab, db, t, p);
    }
    if Next(ab, db, ApplyTag(t)) == db {
      forall m | m in db.messages && ApplySelects(ab, db, (m, t)) ensures (m, t) in db.links {
        assert (m, t) in MessagesForTag(ab, db, t);
      }
    } else {
      var p :| p in MessagesForTag(ab, db, t) && p !in db.links;
      assert p == (p.0, t);
    }
  }

  lemma LinkedByNow(ab: Alphabet, db: Db, steps: seq<Step>, m: int, t: int)
    requires ab.Valid()
    requires var end := Run(ab, Next(ab, db, ApplyTag(t)), steps); m in end.messages && ApplySelects(ab, end, (m, t))
    ensures var next := Next(ab, db, ApplyTag(t));
      t in Run(ab, next, steps).tags
      && ((m, t) in Run(ab, next, steps).links <==> (m in db.messages || CaughtUp(ab, next, steps, m, t)))
  {
    var next := Next(ab, db, ApplyTag(t));
    var end := Run(ab, next, steps);
    RunKeeps(ab, next, steps);
    RunLinks(ab, next, steps, (m, t));
    FirstStep(ab, db, ApplyTag(t), (m, t));
    IngestAgreesWithApply(ab, end.tags[t], end.messages[m]);
  }

  /** Departures happen: one message without a subject and one `all`
      tag with a subject rule. Tagging it on arrival leaves no link; re-applying the tag
      to the same message leaves one, which the documentation does not grant. */
  lemma SubjectlessWitness(ab: Alphabet) returns (tag: Tag, m: Message)
    requires ab.Valid()
    ensures var db := Db(map[], map[0 := tag], {});
      && Run(ab, db, [Ingest(7, m, true)]).links == {}
      && Run(ab, db, [Ingest(7, m, false), ApplyTag(0)]).links == {(7, 0)}
      && !TagHolds(ab, tag, m)
  {
    var r := Rule(SubjectContains, "a");
    tag := Tag(AllRules, [r]);
    m := Message(None, "", None, "", None);
    assert tag.rules[0] == r;
    WhereMeans(ab, tag, m);
    WhereMeans(ab, tag, Bound(m));
    BoundRule(ab, r, m);
    assert Where(ab, tag, Bound(m)) == False && Where(ab, tag, m) == True;
    OneMessageOneTag(ab, tag, m);
  }

  lemma OneMessageOneTag(ab: Alphabet, tag: Tag, m: Message)
    requires Where(ab, tag, Bound(m)) != True && Where(ab, tag, m) == True
    ensures var db := Db(map[], map[0 := tag], {});
      && Run(ab, db, [Ingest(7, m, true)]).links == {}
      && Run(ab, db, [Ingest(7, m, false), ApplyTag(0)]).links == {(7, 0)}
  {
    var db := Db(map[], map[0 := tag], {});
    var db1 := Next(ab, db, Ingest(7, m, true));
    assert Run(ab, db, [Ingest(7, m, true)]) == Run(ab, db1, []);
    var db2 := Next(ab, db, Ingest(7, m, false));
    assert [Ingest(7, m, false), ApplyTag(0)][1..] == [ApplyTag(0)];
    assert Run(ab, db2, [ApplyTag(0)]) == Run(ab, Next(ab, db2, ApplyTag(0)), []);
    forall p: (int, int)
      ensures p in MessagesForTag(ab, db2, 0) <==> p == (7, 0)
    {
      InMessagesForTag(ab, db2, 0, p);
    }
  }
}
