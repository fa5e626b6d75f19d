/** The answers of the view of include/etlx/json/json.hpp where there is nothing to find or to convert. */
module JsonViewErrors {
  import opened Core
  import opened Decimal
  import opened JsonMachine
  import opened JsonTree
  import opened JsonView

  /** The invalid view answers every question, and looking into it leads back to it. */
  lemma NothingInInvalid(key: string, n: nat)
    ensures !INVALID.IsValid() && INVALID.TypeOf() == Undefined && INVALID.AsString() == "" && INVALID.Size() == 0
    ensures MemberOf(INVALID, key) == INVALID && ElementOf(INVALID, n) == INVALID
    ensures IntOf(INVALID) == Err(WrongType)
  {
  }

  /** Only an object has members. */
  lemma NoMembersElsewhere(j: Json, v: Value, key: string)
    requires Denotes(j, v) && !v.Obj?
    ensures MemberOf(j, key) == INVALID
  {
    hide Denotes;
    ScalarsAndSizes(j, v);
  }

  /** Only an array has items. */
  lemma NoItemsElsewhere(j: Json, v: Value, n: nat)
    requires Denotes(j, v) && !v.Arr?
    ensures ElementOf(j, n) == INVALID
  {
    hide Denotes;
    ScalarsAndSizes(j, v);
  }

  /** A scalar has no size. */
  lemma ScalarsAreEmpty(j: Json, v: Value)
    requires Denotes(j, v) && (v.Prim? || v.Str?)
    ensures j.Size() == 0
  {
    hide Denotes;
    ScalarsAndSizes(j, v);
  }

  /** The primitive s is a minus sign, if neg says so, and these digits. */
  predicate Signed(s: string, neg: bool, digits: string) {
    s == (if neg then "-" else "") + digits
  }

  /**
   AsInt of any value: a number exactly for a primitive of decimal digits, at least one, behind at most one minus sign;
   Invalid exactly when there is nothing behind the sign; WrongType otherwise.
   */
  lemma AsIntVerdict(j: Json, v: Value)
    requires Denotes(j, v)
    ensures forall n :: IntOf(j) == Ok(n) <==>
              v.Prim? && exists neg, digits ::
                digits != "" && AllDigits(digits) && Signed(v.text, neg, digits)
                && n == if neg then -(Number(digits) as int) else Number(digits) as int
    ensures IntOf(j) == Err(Invalid) <==> v == Prim("") || v == Prim("-")
    ensures IntOf(j).Ok? || IntOf(j) == Err(Invalid) || IntOf(j) == Err(WrongType)
  {
    hide Denotes, Number;
    ScalarsAndSizes(j, v);
    if v.Prim? {
      var s := v.text;
      forall neg, digits | digits != "" && AllDigits(digits) && Signed(s, neg, digits)
        ensures Magnitude(s) == digits && (s[0] == '-' <==> neg)
      {
        SignIsRead(s, neg, digits);
      }
      if Magnitude(s) != "" && AllDigits(Magnitude(s)) {
        assert Signed(s, s[0] == '-', Magnitude(s));
      }
    }
  }

  lemma SignIsRead(s: string, neg: bool, digits: string)
    requires digits != "" && AllDigits(digits) && Signed(s, neg, digits)
    ensures Magnitude(s) == digits && (s[0] == '-' <==> neg)
  {
    assert IsDigit(digits[0]);
    if neg {
      assert s[1..] == digits;
    } else {
      assert s == digits;
    }
  }
}
