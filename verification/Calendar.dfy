/** calendar.c: `visit_event`, a walk over the token stream of one calendar event. */
module Calendar {
  import opened Basics

  datatype Token =
    | BeginObject | EndObject | BeginArray | EndArray
    | PropertyName(name: string) | Str(text: string) | Scalar

  // ---- Documents and their token streams ----

  datatype Json = Atom | Text(s: string) | Arr(items: Items) | Obj(members: Members)

  datatype Items = NoItems | Item(head: Json, tail: Items)

  datatype Members = NoMembers | Member(name: string, value: Json, rest: Members)

  function Tokens(j: Json): (ts: seq<Token>)
    ensures ts != []
  {
    match j
    case Atom => [Scalar]
    case Text(s) => [Str(s)]
    case Arr(items) => [BeginArray] + ItemTokens(items) + [EndArray]
    case Obj(members) => [BeginObject] + MemberTokens(members) + [EndObject]
  }

  function ItemTokens(items: Items): seq<Token> {
    match items
    case NoItems => []
    case Item(head, tail) => Tokens(head) + ItemTokens(tail)
  }

  function MemberTokens(m: Members): seq<Token> {
    match m
    case NoMembers => []
    case Member(name, value, rest) => [PropertyName(name)] + Tokens(value) + MemberTokens(rest)
  }

  // ---- The reader operations, on the tokens still to be read ----

  predicate Begins(t: Token) { t == BeginObject || t == BeginArray }

  predicate Ends(t: Token) { t == EndObject || t == EndArray }

  /** What remains after the end token that closes `depth` open values. */
  function Close(ts: seq<Token>, depth: nat): Option<seq<Token>>
    requires depth > 0
  {
    if ts == [] then None
    else if Begins(ts[0]) then Close(ts[1..], depth + 1)
    else if !Ends(ts[0]) then Close(ts[1..], depth)
    else if depth == 1 then Some(ts[1..])
    else Close(ts[1..], depth - 1)
  }

  lemma {:induction false} CloseIsSuffix(ts: seq<Token>, depth: nat)
    requires depth > 0
    ensures Close(ts, depth).Some? ==>
              var r := Close(ts, depth).value; |r| < |ts| && r == ts[|ts| - |r|..] && Ends(ts[|ts| - |r| - 1])
  {
    if ts == [] {
    } else if Begins(ts[0]) {
      CloseIsSuffix(ts[1..], depth + 1);
    } else if !Ends(ts[0]) {
      CloseIsSuffix(ts[1..], depth);
    } else if depth > 1 {
      CloseIsSuffix(ts[1..], depth - 1);
    }
  }

  /** `json_reader_skip_children` with `t` current and `ts` to come: what remains after t's value. */
  function SkipChildren(t: Token, ts: seq<Token>): (r: Option<seq<Token>>)
    ensures r.Some? ==> |r.value| <= |ts|
  {
    CloseIsSuffix(ts, 1);
    if Begins(t) then Close(ts, 1) else Some(ts)
  }

  datatype Found = Found(value: Token, rest: seq<Token>) | Missing(rest: seq<Token>) | Broken

  /** `json_reader_find_property` just after a begin-object; a missing property leaves it past the end-object. */
  function FindProperty(ts: seq<Token>, name: string): (f: Found)
    ensures !f.Broken? ==> |f.rest| < |ts|
    decreases |ts|
  {
    if ts == [] then Broken
    else if ts[0] == EndObject then Missing(ts[1..])
    else if !ts[0].PropertyName? || |ts| == 1 then Broken
    else if ts[0].name == name then Found(ts[1], ts[2..])
    else
      var r := SkipChildren(ts[1], ts[2..]);
      if r.None? then Broken else FindProperty(r.value, name)
  }

  // ---- visit_event as a function ----

  datatype Event = Event(summary: string, location: string, start: string, end: string)

  const NO_EVENT := Event([], [], [], [])
  const ALL_DAY := "(all-day)"

  /** `copy_string_token` into a buffer of `cap` characters that holds `old`. */
  function Copied(t: Token, cap: nat, was: string): string {
    if t.Str? && |t.text| < cap then t.text else was
  }

  function WithTime(e: Event, isStart: bool, time: string): Event {
    if isStart then e.(start := time) else e.(end := time)
  }

  function TimeOf(e: Event, isStart: bool): string {
    if isStart then e.start else e.end
  }

  /** The loop that skips what follows `dateTime` in a start or end object. */
  function SkipRest(ts: seq<Token>): (r: Option<seq<Token>>)
    ensures r.Some? ==> |r.value| < |ts|
    decreases |ts|
  {
    if ts == [] then None
    else if ts[0] == EndObject then Some(ts[1..])
    else if ts[0].PropertyName? then
      if |ts| == 1 then None
      else
        var r := SkipChildren(ts[1], ts[2..]);
        if r.None? then None else SkipRest(r.value)
    else SkipRest(ts[1..])
  }

  datatype Visit = Visited(rest: seq<Token>, event: Event) | Failed

  /** The main loop, with `ts` still to be read and `e` filled in so far. */
  function Walk(ts: seq<Token>, e: Event): Visit
    decreases |ts|
  {
    if ts == [] then Failed
    else if ts[0] == EndObject then Visited(ts[1..], e)
    else if !ts[0].PropertyName? || |ts| == 1 then Failed
    else
      var name, v, rest := ts[0].name, ts[1], ts[2..];
      if name == "summary" && v.Str? then Walk(rest, e.(summary := Copied(v, 256, e.summary)))
      else if name == "location" && v.Str? then Walk(rest, e.(location := Copied(v, 256, e.location)))
      else if (name == "start" || name == "end") && v == BeginObject then
        WalkTime(rest, name == "start", e)
      else
        var r := SkipChildren(v, rest);
        if r.None? then Failed else Walk(r.value, e)
  }

  /** What the main loop does with a start or end object whose inside is still to be read. */
  function WalkTime(ts: seq<Token>, isStart: bool, e: Event): Visit
    decreases |ts|
  {
    match FindProperty(ts, "dateTime")
    case Missing(r) => Walk(r, WithTime(e, isStart, ALL_DAY))
    case Broken => Failed
    case Found(t, r) =>
      var after := SkipRest(r);
      if after.None? then Failed else Walk(after.value, WithTime(e, isStart, Copied(t, 64, TimeOf(e, isStart))))
  }

  // ---- The event a document denotes ----

  /** The value of the first property `name`, if any. */
  function First(m: Members, name: string): Option<Json> {
    match m
    case NoMembers => None
    case Member(n, v, rest) => if n == name then Some(v) else First(rest, name)
  }

  function TimeFrom(m: Members, was: string): string {
    match First(m, "dateTime")
    case None => ALL_DAY
    case Some(Text(s)) => if |s| < 64 then s else was
    case Some(_) => was
  }

  predicate IsTime(name: string) { name == "start" || name == "end" }

  /** The event after one property. */
  function OneProperty(name: string, value: Json, e: Event): Event {
    if name == "summary" && value.Text? then
      (if |value.s| < 256 then e.(summary := value.s) else e)
    else if name == "location" && value.Text? then
      (if |value.s| < 256 then e.(location := value.s) else e)
    else if IsTime(name) && value.Obj? then
      WithTime(e, name == "start", TimeFrom(value.members, TimeOf(e, name == "start")))
    else e
  }

  function EventOf(m: Members, e: Event): Event {
    match m
    case NoMembers => e
    case Member(name, value, rest) => EventOf(rest, OneProperty(name, value, e))
  }

  // ---- What each field of the event means, property by property ----

  /** The text of the last property `name` that is a string short enough for the field; `was` when there is none. */
  function LastText(m: Members, name: string, was: string): string {
    match m
    case NoMembers => was
    case Member(n, Text(s), rest) => LastText(rest, name, if n == name && |s| < 256 then s else was)
    case Member(_, _, rest) => LastText(rest, name, was)
  }

  /**
    The time the objects `name` give, in order: the text of the object's first `dateTime`, "(all-day)" when it has
    none, and no change when that is not a string short enough for the field.
   */
  function LastTime(m: Members, name: string, was: string): string {
    match m
    case NoMembers => was
    case Member(n, Obj(inner), rest) =>
      LastTime(rest, name,
               if n != name then was
               else match First(inner, "dateTime")
                 case None => "(all-day)"
                 case Some(Text(s)) => if |s| < 64 then s else was
                 case Some(_) => was)
    case Member(_, _, rest) => LastTime(rest, name, was)
  }

  /** Each field is filled by the properties of its own name alone. */
  function EventMeaning(m: Members, e: Event): Event {
    Event(LastText(m, "summary", e.summary), LastText(m, "location", e.location),
          LastTime(m, "start", e.start), LastTime(m, "end", e.end))
  }

  lemma OnePropertyMeaning(name: string, value: Json, e: Event)
    ensures OneProperty(name, value, e) == EventMeaning(Member(name, value, NoMembers), e)
  {
    var one := Member(name, value, NoMembers);
    FieldNamesDiffer();
    if value.Text? {
      assert LastText(one, "summary", e.summary) == if name == "summary" && |value.s| < 256 then value.s else e.summary;
      assert LastText(one, "location", e.location)
          == if name == "location" && |value.s| < 256 then value.s else e.location;
    } else {
      assert LastText(one, "summary", e.summary) == e.summary && LastText(one, "location", e.location) == e.location;
    }
    if value.Obj? {
      assert LastTime(one, "start", e.start) == if name == "start" then TimeFrom(value.members, e.start) else e.start;
      assert LastTime(one, "end", e.end) == if name == "end" then TimeFrom(value.members, e.end) else e.end;
    } else {
      assert LastTime(one, "start", e.start) == e.start && LastTime(one, "end", e.end) == e.end;
    }
  }

  lemma FieldNamesDiffer()
    ensures "summary" != "location" && "summary" != "start" && "summary" != "end"
    ensures "location" != "start" && "location" != "end" && "start" != "end"
  {
    assert |"summary"| == 7 && |"location"| == 8 && |"start"| == 5 && |"end"| == 3;
  }

  lemma {:induction false} EventOfMeaning(m: Members, e: Event)
    ensures EventOf(m, e) == EventMeaning(m, e)
    decreases m
  {
    if m.Member? {
      OnePropertyMeaning(m.name, m.value, e);
      EventOfMeaning(m.rest, OneProperty(m.name, m.value, e));
    }
  }

  /** No object occurs in the value, at any depth. */
  predicate Flat(j: Json) {
    match j
    case Arr(items) => AllFlat(items)
    case Obj(_) => false
    case _ => true
  }

  predicate AllFlat(items: Items) {
    match items
    case NoItems => true
    case Item(head, tail) => Flat(head) && AllFlat(tail)
  }

  predicate GoodProperty(name: string, value: Json) {
    IsTime(name) && value.Obj? ==>
      match First(value.members, "dateTime") case Some(d) => Flat(d) case None => true
  }

  /** Every start and end object has no `dateTime`, or a first one without an object inside. */
  predicate Good(m: Members) {
    match m
    case NoMembers => true
    case Member(name, value, rest) => GoodProperty(name, value) && Good(rest)
  }

  // ---- Skipping whole values ----

  lemma {:induction false} CloseSkipsValue(j: Json, suf: seq<Token>, depth: nat)
    requires depth > 0
    ensures Close(Tokens(j) + suf, depth) == Close(suf, depth)
    decreases j
  {
    var ts := Tokens(j) + suf;
    match j
    case Atom => assert ts[1..] == suf;
    case Text(_) => assert ts[1..] == suf;
    case Arr(items) =>
      assert ts[1..] == ItemTokens(items) + ([EndArray] + suf);
      CloseSkipsItems(items, [EndArray] + suf, depth + 1);
      assert ([EndArray] + suf)[1..] == suf;
    case Obj(members) =>
      assert ts[1..] == MemberTokens(members) + ([EndObject] + suf);
      CloseSkipsMembers(members, [EndObject] + suf, depth + 1);
      assert ([EndObject] + suf)[1..] == suf;
  }

  lemma {:induction false} CloseSkipsItems(items: Items, suf: seq<Token>, depth: nat)
    requires depth > 0
    ensures Close(ItemTokens(items) + suf, depth) == Close(suf, depth)
    decreases items
  {
    match items
    case NoItems => assert ItemTokens(items) + suf == suf;
    case Item(head, tail) =>
      assert ItemTokens(items) + suf == Tokens(head) + (ItemTokens(tail) + suf);
      CloseSkipsValue(head, ItemTokens(tail) + suf, depth);
      CloseSkipsItems(tail, suf, depth);
  }

  lemma {:induction false} CloseSkipsMembers(m: Members, suf: seq<Token>, depth: nat)
    requires depth > 0
    ensures Close(MemberTokens(m) + suf, depth) == Close(suf, depth)
    decreases m
  {
    match m
    case NoMembers => assert MemberTokens(m) + suf == suf;
    case Member(name, value, rest) =>
      var ts := MemberTokens(m) + suf;
      assert ts[1..] == Tokens(value) + (MemberTokens(rest) + suf);
      CloseSkipsValue(value, MemberTokens(rest) + suf, depth);
      CloseSkipsMembers(rest, suf, depth);
  }

  /** What follows a value's first token. */
  lemma AfterFirstToken(j: Json, suf: seq<Token>)
    ensures match j
            case Arr(items) =>
              Tokens(j)[0] == BeginArray && Tokens(j)[1..] + suf == ItemTokens(items) + ([EndArray] + suf)
            case Obj(m) =>
              Tokens(j)[0] == BeginObject && Tokens(j)[1..] + suf == MemberTokens(m) + ([EndObject] + suf)
            case _ => !Begins(Tokens(j)[0]) && Tokens(j)[1..] + suf == suf
  {
    match j
    case Arr(items) =>
      assert Tokens(j)[1..] == ItemTokens(items) + [EndArray];
      ConcatAssociates(ItemTokens(items), [EndArray], suf);
    case Obj(m) =>
      assert Tokens(j)[1..] == MemberTokens(m) + [EndObject];
      ConcatAssociates(MemberTokens(m), [EndObject], suf);
    case _ =>
  }

  /** Skipping from a value's first token lands exactly after its last one. */
  lemma SkipsOneValue(j: Json, suf: seq<Token>)
    ensures SkipChildren(Tokens(j)[0], Tokens(j)[1..] + suf) == Some(suf)
  {
    AfterFirstToken(j, suf);
    match j
    case Atom =>
    case Text(_) =>
    case Arr(items) =>
      CloseSkipsItems(items, [EndArray] + suf, 1);
      assert ([EndArray] + suf)[1..] == suf;
    case Obj(members) =>
      CloseSkipsMembers(members, [EndObject] + suf, 1);
      assert ([EndObject] + suf)[1..] == suf;
  }

  /** The tokens of a non-empty property list: a name, the value's first token, and the rest. */
  lemma MemberShape(m: Members, suf: seq<Token>)
    requires m.Member?
    ensures var ts := MemberTokens(m) + suf;
            && |ts| >= 2 && ts[0] == PropertyName(m.name) && ts[1] == Tokens(m.value)[0]
            && ts[2..] == Tokens(m.value)[1..] + (MemberTokens(m.rest) + suf)
  {
    NameThenValue(PropertyName(m.name), Tokens(m.value), MemberTokens(m.rest), suf);
  }

  lemma NameThenValue(t: Token, v: seq<Token>, rest: seq<Token>, suf: seq<Token>)
    requires v != []
    ensures var ts := [t] + v + rest + suf; |ts| >= 2 && ts[0] == t && ts[1] == v[0] && ts[2..] == v[1..] + (rest + suf)
  {}

  /** The closing part of an object: its remaining properties, its end token and what follows. */
  function Tail(m: Members, suf: seq<Token>): seq<Token> {
    MemberTokens(m) + ([EndObject] + suf)
  }

  lemma TailShape(m: Members, suf: seq<Token>)
    ensures m.Member? ==>
              var ts := Tail(m, suf);
              && |ts| >= 2 && ts[0] == PropertyName(m.name) && ts[1] == Tokens(m.value)[0]
              && ts[2..] == Tokens(m.value)[1..] + Tail(m.rest, suf)
    ensures m.NoMembers? ==> Tail(m, suf) == [EndObject] + suf && Tail(m, suf)[1..] == suf
    ensures |Tail(m, suf)| > |suf|
  {
    if m.Member? {
      MemberShape(m, [EndObject] + suf);
    }
  }

  /** The property list after the first property `name`. */
  function AfterFirst(m: Members, name: string): Members
    requires First(m, name).Some?
  {
    if m.name == name then m.rest else AfterFirst(m.rest, name)
  }

  lemma {:induction false} FindsFirst(m: Members, name: string, suf: seq<Token>)
    ensures FindProperty(Tail(m, suf), name)
         == match First(m, name)
            case None => Missing(suf)
            case Some(v) => Found(Tokens(v)[0], Tokens(v)[1..] + Tail(AfterFirst(m, name), suf))
    decreases m
  {
    TailShape(m, suf);
    if m.Member? && m.name != name {
      SkipsOneValue(m.value, Tail(m.rest, suf));
      FindsFirst(m.rest, name, suf);
    }
  }

  lemma {:induction false} SkipRestEndsObject(m: Members, suf: seq<Token>)
    ensures SkipRest(Tail(m, suf)) == Some(suf)
    decreases m
  {
    TailShape(m, suf);
    if m.Member? {
      SkipsOneValue(m.value, Tail(m.rest, suf));
      SkipRestEndsObject(m.rest, suf);
    }
  }

  lemma {:induction false} SkipRestPassesFlat(j: Json, suf: seq<Token>)
    requires Flat(j)
    ensures SkipRest(Tokens(j) + suf) == SkipRest(suf)
    decreases j
  {
    var ts := Tokens(j) + suf;
    match j
    case Atom => assert ts[1..] == suf;
    case Text(_) => assert ts[1..] == suf;
    case Arr(items) =>
      assert ts[1..] == ItemTokens(items) + ([EndArray] + suf);
      SkipRestPassesFlatItems(items, [EndArray] + suf);
      assert ([EndArray] + suf)[1..] == suf;
  }

  lemma {:induction false} SkipRestPassesFlatItems(items: Items, suf: seq<Token>)
    requires AllFlat(items)
    ensures SkipRest(ItemTokens(items) + suf) == SkipRest(suf)
    decreases items
  {
    match items
    case NoItems => assert ItemTokens(items) + suf == suf;
    case Item(head, tail) =>
      assert ItemTokens(items) + suf == Tokens(head) + (ItemTokens(tail) + suf);
      SkipRestPassesFlat(head, ItemTokens(tail) + suf);
      SkipRestPassesFlatItems(tail, suf);
  }

  /** After a flat dateTime value, the inner loop ends exactly where the start or end object ends. */
  lemma SkipRestAfterFlat(d: Json, m: Members, suf: seq<Token>)
    requires Flat(d)
    ensures SkipRest(Tokens(d)[1..] + Tail(m, suf)) == Some(suf)
  {
    SkipRestEndsObject(m, suf);
    match d
    case Atom => assert Tokens(d)[1..] + Tail(m, suf) == Tail(m, suf);
    case Text(_) => assert Tokens(d)[1..] + Tail(m, suf) == Tail(m, suf);
    case Arr(items) =>
      var close := [EndArray] + Tail(m, suf);
      assert Tokens(d)[1..] + Tail(m, suf) == ItemTokens(items) + close;
      SkipRestPassesFlatItems(items, close);
      assert close[1..] == Tail(m, suf);
  }

  /** The walk reaches the inside of a start or end object. */
  lemma EntersTime(m: Members, suf: seq<Token>, e: Event)
    requires m.Member? && IsTime(m.name) && m.value.Obj?
    ensures Walk(Tail(m, suf), e) == WalkTime(Tail(m.value.members, Tail(m.rest, suf)), m.name == "start", e)
  {
    TailShape(m, suf);
    AfterFirstToken(m.value, Tail(m.rest, suf));
    WalkAtTime(Tail(m, suf), e);
  }

  lemma WalkAtTime(ts: seq<Token>, e: Event)
    requires |ts| >= 2 && ts[0].PropertyName? && IsTime(ts[0].name) && ts[1] == BeginObject
    ensures Walk(ts, e) == WalkTime(ts[2..], ts[0].name == "start", e)
  {}

  /** A start or end object without a bad dateTime: the walk goes on just after it. */
  lemma TimeStep(m: Members, suf: seq<Token>, e: Event)
    requires m.Member? && IsTime(m.name) && m.value.Obj? && GoodProperty(m.name, m.value)
    ensures Walk(Tail(m, suf), e) == Walk(Tail(m.rest, suf), OneProperty(m.name, m.value, e))
  {
    EntersTime(m, suf, e);
    TimeInside(m.value.members, Tail(m.rest, suf), m.name == "start", e);
  }

  lemma TimeInside(inner: Members, after: seq<Token>, isStart: bool, e: Event)
    requires GoodProperty("start", Obj(inner))
    ensures WalkTime(Tail(inner, after), isStart, e)
         == Walk(after, WithTime(e, isStart, TimeFrom(inner, TimeOf(e, isStart))))
  {
    FindsFirst(inner, "dateTime", after);
    if First(inner, "dateTime").Some? {
      var d := First(inner, "dateTime").value;
      FirstTokenCopied(d, TimeOf(e, isStart));
      SkipRestAfterFlat(d, AfterFirst(inner, "dateTime"), after);
    }
  }

  lemma FirstTokenCopied(d: Json, was: string)
    ensures Copied(Tokens(d)[0], 64, was) == if d.Text? && |d.s| < 64 then d.s else was
  {
    AfterFirstToken(d, []);
  }

  /** One good property: the walk goes on just after its value with the event updated. */
  lemma GoodStep(m: Members, suf: seq<Token>, e: Event)
    requires m.Member? && GoodProperty(m.name, m.value)
    ensures Walk(Tail(m, suf), e) == Walk(Tail(m.rest, suf), OneProperty(m.name, m.value, e))
  {
    if IsTime(m.name) && m.value.Obj? {
      TimeStep(m, suf, e);
    } else {
      TailShape(m, suf);
      AfterFirstToken(m.value, Tail(m.rest, suf));
      SkipsOneValue(m.value, Tail(m.rest, suf));
    }
  }

  lemma {:induction false} GoodWalk(m: Members, suf: seq<Token>, e: Event)
    requires Good(m)
    ensures Walk(Tail(m, suf), e) == Visited(suf, EventOf(m, e))
    decreases m
  {
    TailShape(m, suf);
    if m.Member? {
      GoodStep(m, suf, e);
      GoodWalk(m.rest, suf, OneProperty(m.name, m.value, e));
    }
  }

  // ---- What happens when a dateTime value contains an object ----

  /** Neither a property name nor an end of object: the main loop gives up on it. */
  predicate Unexpected(ts: seq<Token>) {
    ts != [] && !ts[0].PropertyName? && ts[0] != EndObject
  }

  lemma ItemsAreUnexpected(items: Items, suf: seq<Token>)
    requires Unexpected(suf)
    ensures Unexpected(ItemTokens(items) + suf)
  {
    match items
    case NoItems => assert ItemTokens(items) + suf == suf;
    case Item(head, tail) => assert Tokens(head) != [] && (ItemTokens(items) + suf)[0] == Tokens(head)[0];
  }

  lemma SkipRestPassesOne(ts: seq<Token>)
    requires Unexpected(ts)
    ensures SkipRest(ts) == SkipRest(ts[1..])
  {}

  /** The inner loop stops at a place where the main loop gives up. */
  predicate StopsInside(ts: seq<Token>) {
    SkipRest(ts).Some? && Unexpected(SkipRest(ts).value)
  }

  /** An object inside the value ends the inner loop early, at that object's own end. */
  lemma {:induction false} ValueStopsInside(j: Json, suf: seq<Token>)
    requires !Flat(j) && Unexpected(suf)
    ensures StopsInside(Tokens(j) + suf)
    decreases j
  {
    var ts := Tokens(j) + suf;
    assert ts[0] == Tokens(j)[0] && ts[1..] == Tokens(j)[1..] + suf;
    AfterFirstToken(j, suf);
    SkipRestPassesOne(ts);
    match j
    case Arr(inner) => ItemsStopInside(inner, [EndArray] + suf);
    case Obj(m) => SkipRestEndsObject(m, suf);
  }

  lemma {:induction false} ItemsStopInside(items: Items, suf: seq<Token>)
    requires !AllFlat(items) && Unexpected(suf)
    ensures StopsInside(ItemTokens(items) + suf)
    decreases items
  {
    var after := ItemTokens(items.tail) + suf;
    assert ItemTokens(items) + suf == Tokens(items.head) + after;
    ItemsAreUnexpected(items.tail, suf);
    if Flat(items.head) {
      SkipRestPassesFlat(items.head, after);
      ItemsStopInside(items.tail, suf);
    } else {
      ValueStopsInside(items.head, after);
    }
  }

  /** One bad property: the walk fails, or goes on among the later properties of the start or end object. */
  lemma BadStep(m: Members, suf: seq<Token>, e: Event) returns (e': Event)
    requires m.Member? && !GoodProperty(m.name, m.value)
    ensures var inner := AfterFirst(m.value.members, "dateTime");
            Walk(Tail(m, suf), e) == Failed || Walk(Tail(m, suf), e) == Walk(Tail(inner, Tail(m.rest, suf)), e')
  {
    EntersTime(m, suf, e);
    var after, inner := Tail(m.rest, suf), m.value.members;
    FindsFirst(inner, "dateTime", after);
    var d, later := First(inner, "dateTime").value, Tail(AfterFirst(inner, "dateTime"), after);
    AfterFirstToken(d, later);
    e' := WithTime(e, m.name == "start", TimeOf(e, m.name == "start"));
    match d
    case Arr(items) =>
      ItemsStopInside(items, [EndArray] + later);
    case Obj(dm) =>
      SkipRestEndsObject(dm, later);
  }

  /** With a bad property the walk fails or stops before the end of the event. */
  lemma {:induction false} BadWalk(m: Members, suf: seq<Token>, e: Event)
    requires !Good(m)
    ensures var w := Walk(Tail(m, suf), e); w.Visited? ==> |w.rest| > |suf|
    decreases m
  {
    if GoodProperty(m.name, m.value) {
      GoodStep(m, suf, e);
      BadWalk(m.rest, suf, OneProperty(m.name, m.value, e));
    } else {
      var e' := BadStep(m, suf, e);
      var inner := AfterFirst(m.value.members, "dateTime");
      AfterFirstIsSmaller(m.value.members, "dateTime");
      TailShape(m.rest, suf);
      if Good(inner) {
        GoodWalk(inner, Tail(m.rest, suf), e');
      } else {
        BadWalk(inner, Tail(m.rest, suf), e');
      }
    }
  }

  lemma {:induction false} AfterFirstIsSmaller(m: Members, name: string)
    requires First(m, name).Some?
    ensures AfterFirst(m, name) < m
    decreases m
  {
    if m.name != name {
      AfterFirstIsSmaller(m.rest, name);
    }
  }

  /**
    Started on any event object, whatever follows it, the walk succeeds and stops exactly at the object's own end
    if and only if no first `dateTime` of a start or end object contains an object; it then has read the event.
   */
  lemma ConsumesOneObject(m: Members, suf: seq<Token>)
    ensures var w := Walk(Tokens(Obj(m))[1..] + suf, NO_EVENT);
            && (w.Visited? && w.rest == suf <==> Good(m))
            && (Good(m) ==> w == Visited(suf, EventMeaning(m, Event("", "", "", ""))))
  {
    AfterFirstToken(Obj(m), suf);
    EventOfMeaning(m, NO_EVENT);
    if Good(m) {
      GoodWalk(m, suf, NO_EVENT);
    } else {
      BadWalk(m, suf, NO_EVENT);
    }
  }

  /** A concrete event on which it does not: {"start": {"dateTime": {}}}. */
  lemma NestedDateTimeStopsEarly(suf: seq<Token>)
    ensures var m := Member("start", Obj(Member("dateTime", Obj(NoMembers), NoMembers)), NoMembers);
            var w := Walk(Tokens(Obj(m))[1..] + suf, NO_EVENT);
            w == Visited([EndObject] + suf, NO_EVENT)
  {
    var inner := Member("dateTime", Obj(NoMembers), NoMembers);
    var m := Member("start", Obj(inner), NoMembers);
    AfterFirstToken(Obj(m), suf);
    EntersTime(m, suf, NO_EVENT);
    TailShape(NoMembers, suf);
    NestedInside(Obj(NoMembers), Tail(NoMembers, suf));
  }

  /** An empty object as `dateTime`: the inner loop ends with it, the main loop with the start object around it. */
  lemma NestedInside(d: Json, after: seq<Token>)
    requires d == Obj(NoMembers)
    ensures WalkTime(Tail(Member("dateTime", d, NoMembers), after), true, NO_EVENT) == Visited(after, NO_EVENT)
  {
    FindsFirst(Member("dateTime", d, NoMembers), "dateTime", after);
    AfterFirstToken(d, Tail(NoMembers, after));
    SkipRestEndsObject(NoMembers, Tail(NoMembers, after));
    TailShape(NoMembers, after);
  }

  /** A concrete event that is read as it should be: the start time is the start's, the end time the end's. */
  lemma StartAndEnd(from: string, to: string, suf: seq<Token>)
    requires |from| < 64 && |to| < 64
    ensures var m := Member("start", Obj(Member("dateTime", Text(from), NoMembers)),
                            Member("end", Obj(Member("dateTime", Text(to), NoMembers)), NoMembers));
            Walk(Tokens(Obj(m))[1..] + suf, NO_EVENT) == Visited(suf, Event("", "", from, to))
  {
    var second := Member("end", Obj(Member("dateTime", Text(to), NoMembers)), NoMembers);
    var m := Member("start", Obj(Member("dateTime", Text(from), NoMembers)), second);
    FieldNamesDiffer();
    assert Good(second) && Good(m);
    ConsumesOneObject(m, suf);
    assert LastText(second, "summary", "") == "" && LastText(second, "location", "") == "";
    assert LastTime(second, "start", from) == from && LastTime(second, "end", "") == to;
  }

  /** Where an object stands in a stream, and that what follows it fixes the position of its end. */
  lemma ObjectStarts(ts: seq<Token>, pre: seq<Token>, m: Members, suf: seq<Token>)
    requires ts == pre + Tokens(Obj(m)) + suf
    ensures |pre| < |ts| && ts[|pre|] == BeginObject && ts[|pre| + 1..] == Tokens(Obj(m))[1..] + suf
  {
    assert Tokens(Obj(m))[0] == BeginObject;
  }

  lemma ObjectEnds(ts: seq<Token>, pre: seq<Token>, m: Members, suf: seq<Token>, p: nat)
    requires ts == pre + Tokens(Obj(m)) + suf && p < |ts|
    ensures ts[p + 1..] == suf <==> p == |pre| + |Tokens(Obj(m))| - 1
  {
    assert ts[|pre| + |Tokens(Obj(m))|..] == suf;
  }

  // ---- The reader object and the C function ----

  class JsonReader {
    const tokens: seq<Token>
    var pos: nat

    ghost predicate Valid()
      reads this
    {
      pos < |tokens|
    }

    /** The tokens still to be read; the current one is not among them. */
    ghost function Rest(): seq<Token>
      requires Valid()
      reads this
    {
      tokens[pos + 1..]
    }

    constructor (tokens: seq<Token>)
      requires tokens != []
      ensures Valid() && pos == 0 && this.tokens == tokens
    {
      this.tokens := tokens;
      pos := 0;
    }

    /** `json_reader_next_token`: fails only at the end of the input. */
    method Next() returns (ok: bool)
      requires Valid()
      modifies this
      ensures Valid() && old(pos) <= pos
      ensures ok <==> old(Rest()) != []
      ensures ok ==> tokens[pos] == old(Rest())[0] && Rest() == old(Rest())[1..]
    {
      if pos + 1 == |tokens| {
        return false;
      }
      pos := pos + 1;
      ok := true;
    }

    /** `json_reader_skip_children`, by counting open values. */
    method Skip() returns (ok: bool)
      requires Valid()
      modifies this
      ensures Valid() && old(pos) <= pos
      ensures var r := SkipChildren(tokens[old(pos)], old(Rest())); ok == r.Some? && (ok ==> Rest() == r.value)
    {
      if !Begins(tokens[pos]) {
        return true;
      }
      var depth := 1;
      while depth > 0
        invariant Valid() && old(pos) <= pos
        invariant if depth > 0 then Close(Rest(), depth) == Close(old(Rest()), 1)
                  else Close(old(Rest()), 1) == Some(Rest())
        decreases |tokens| - pos, depth
      {
        var more := Next();
        if !more {
          return false;
        }
        if Begins(tokens[pos]) {
          depth := depth + 1;
        } else if Ends(tokens[pos]) {
          depth := depth - 1;
        }
      }
      ok := true;
    }

    /** `json_reader_find_property` on a begin-object: on the value, or past the object when it is missing. */
    method Find(name: string) returns (ok: bool, ghost broken: bool)
      requires Valid()
      modifies this
      ensures Valid() && old(pos) <= pos
      ensures match FindProperty(old(Rest()), name)
              case Found(t, r) => ok && !broken && tokens[pos] == t && Rest() == r
              case Missing(r) => !ok && !broken && Rest() == r
              case Broken => !ok && broken && Rest() == []
    {
      while true
        invariant Valid() && old(pos) <= pos
        invariant FindProperty(Rest(), name) == FindProperty(old(Rest()), name)
        decreases |tokens| - pos
      {
        var more := Next();
        if more && tokens[pos] == EndObject {
          return false, false;
        }
        if more && tokens[pos].PropertyName? {
          var here := tokens[pos].name == name;
          more := Next();
          if more && here {
            return true, false;
          }
          if more {
            more := Skip();
          }
        } else {
          more := false;
        }
        if !more {
          pos := |tokens| - 1;
          return false, true;
        }
      }
    }

    /** The loop over what follows `dateTime`. */
    method SkipToEnd() returns (ok: bool)
      requires Valid()
      modifies this
      ensures Valid() && old(pos) <= pos
      ensures var r := SkipRest(old(Rest())); ok == r.Some? && (ok ==> Rest() == r.value)
    {
      while true
        invariant Valid() && old(pos) <= pos
        invariant SkipRest(Rest()) == SkipRest(old(Rest()))
        decreases |tokens| - pos
      {
        ok := Next();
        if !ok {
          return;
        }
        if tokens[pos] == EndObject {
          return true;
        }
        if tokens[pos].PropertyName? {
          ok := Next();
          if !ok {
            return;
          }
          ok := Skip();
          if !ok {
            return;
          }
        }
      }
    }

    /** `visit_event`. */
    method VisitEvent() returns (ok: bool, e: Event)
      requires Valid()
      modifies this
      ensures Valid()
      ensures tokens[old(pos)] != BeginObject ==> ok && pos == old(pos)
      ensures tokens[old(pos)] == BeginObject ==>
                match Walk(old(Rest()), NO_EVENT)
                case Visited(r, ev) => ok && Rest() == r && e == ev && tokens[pos] == EndObject
                case Failed => !ok
    {
      e := NO_EVENT;
      if tokens[pos] != BeginObject {
        return true, e;
      }
      while true
        invariant Valid()
        invariant Walk(Rest(), e) == Walk(old(Rest()), NO_EVENT)
        decreases |tokens| - pos
      {
        ok := Next();
        if !ok {
          return;
        }
        if tokens[pos] == EndObject {
          return;
        }
        if !tokens[pos].PropertyName? {
          return false, e;
        }
        var name := tokens[pos].name;
        ok := Next();
        if !ok {
          return;
        }
        if name == "summary" && tokens[pos].Str? {
          e := e.(summary := Copied(tokens[pos], 256, e.summary));
        } else if name == "location" && tokens[pos].Str? {
          e := e.(location := Copied(tokens[pos], 256, e.location));
        } else if (name == "start" || name == "end") && tokens[pos] == BeginObject {
          var isStart := name == "start";
          var found, broken := Find("dateTime");
          if !found {
            e := WithTime(e, isStart, ALL_DAY);
          } else {
            e := WithTime(e, isStart, Copied(tokens[pos], 64, TimeOf(e, isStart)));
            ok := SkipToEnd();
            if !ok {
              return;
            }
          }
        } else {
          ok := Skip();
          if !ok {
            return;
          }
        }
      }
    }

    /** The same in cursor positions, for an event object anywhere in a well-formed stream. */
    method VisitObject(ghost pre: seq<Token>, ghost m: Members, ghost suf: seq<Token>) returns (ok: bool, e: Event)
      requires Valid() && tokens == pre + Tokens(Obj(m)) + suf && pos == |pre|
      modifies this
      ensures Valid()
      ensures ok && pos == |pre| + |Tokens(Obj(m))| - 1 <==> Good(m)
      ensures Good(m) ==> e == EventMeaning(m, Event("", "", "", ""))
    {
      ObjectStarts(tokens, pre, m, suf);
      ghost var inside := Tokens(Obj(m))[1..] + suf;
      assert Rest() == inside;
      ConsumesOneObject(m, suf);
      ok, e := VisitEvent();
      assert ok ==> Walk(inside, NO_EVENT) == Visited(Rest(), e);
      ObjectEnds(tokens, pre, m, suf, pos);
    }
  }
}
