/** The post classification of app/community/models.py: a string enumeration
    whose `_missing_` hook makes value lookup ASCII-case-insensitive. */
module PostTypes {
  import opened Wrappers
  import opened Text

  datatype PostType = General | Question | Experience

  /** The string value of each member. */
  function Value(t: PostType): string {
    match t
    case General => "GENERAL"
    case Question => "QUESTION"
    case Experience => "EXPERIENCE"
  }

  /** The members in definition order, the order `for member in cls` visits. */
  const Members: seq<PostType> := [General, Question, Experience]

  /** What the enumeration is asked to convert: a Python `str`, or any other object. */
  datatype Raw = Str(s: string) | NonStr

  /** The first member of `members` whose value is `v`. */
  function FindMember(members: seq<PostType>, v: string): (r: Option<PostType>)
    ensures r.Some? ==> r.value in members && Value(r.value) == v
    ensures r.None? ==> forall t :: t in members ==> Value(t) != v
  {
    if members == [] then None
    else if Value(members[0]) == v then Some(members[0])
    else FindMember(members[1..], v)
  }

  /** `_missing_`: only a string is considered, and its upper-case form is
      searched among the member values; anything else gives no member. */
  function Missing(v: Raw): (r: Option<PostType>)
    ensures r.Some? ==> v.Str? && Value(r.value) == AsciiUpper(v.s)
    ensures r.None? <==> v.NonStr? || forall t :: t in Members ==> Value(t) != AsciiUpper(v.s)
  {
    match v
    case Str(s) => FindMember(Members, AsciiUpper(s))
    case NonStr => None
  }

  /** `PostType(v)`: the exact value lookup of the enumeration, and `_missing_`
      when that finds nothing. `None` is the ValueError the caller then sees. */
  function Coerce(v: Raw): (r: Option<PostType>)
    ensures r.Some? ==> v.Str? && AsciiUpper(v.s) == Value(r.value)
  {
    match v
    case Str(s) =>
      var exact := FindMember(Members, s);
      if exact.Some? then
        ValueIsUpper(exact.value);
        exact
      else Missing(v)
    case NonStr => None
  }

  lemma ValueIsUpper(t: PostType)
    ensures AsciiUpper(Value(t)) == Value(t)
  {
  }

  lemma ValueInjective(t: PostType, u: PostType)
    requires Value(t) == Value(u)
    ensures t == u
  {
  }

  lemma EveryMemberListed(t: PostType)
    ensures t in Members
  {
  }

  /** A string whose upper-case form is a member's value coerces to that member. */
  lemma CoerceCaseInsensitive(s: string, t: PostType)
    requires AsciiUpper(s) == Value(t)
    ensures Coerce(Str(s)) == Some(t)
  {
    EveryMemberListed(t);
    var r := Coerce(Str(s));
    ValueInjective(r.value, t);
  }

  /** The exact member values coerce to their own members. */
  lemma CoerceExact(t: PostType)
    ensures Coerce(Str(Value(t))) == Some(t)
  {
    ValueIsUpper(t);
    CoerceCaseInsensitive(Value(t), t);
  }

  /** Coercing the value of a coerced member gives that member back. */
  lemma CoerceIdempotent(v: Raw)
    requires Coerce(v).Some?
    ensures Coerce(Str(Value(Coerce(v).value))) == Coerce(v)
  {
    CoerceExact(Coerce(v).value);
  }

  /** No member is produced for a non-string, nor for a string whose
      upper-case form is no member value: there is no fallback to General. */
  lemma CoerceNone(v: Raw)
    ensures Coerce(v).None? <==> v.NonStr? || forall t :: Value(t) != AsciiUpper(v.s)
  {
    if v.Str? && Coerce(v).None? {
      forall t ensures Value(t) != AsciiUpper(v.s) {
        if Value(t) == AsciiUpper(v.s) {
          CoerceCaseInsensitive(v.s, t);
        }
      }
    }
  }

  lemma LowerCaseQuestion()
    ensures Coerce(Str("question")) == Some(Question)
  {
    assert AsciiUpper("question") == "QUESTION";
    CoerceCaseInsensitive("question", Question);
  }

  lemma UnknownTypeHasNoFallback()
    ensures Coerce(Str("news")) == None
  {
    var u := AsciiUpper("news");
    assert u[0] == 'N';
    forall t ensures Value(t) != u {
    }
    CoerceNone(Str("news"));
  }
}
