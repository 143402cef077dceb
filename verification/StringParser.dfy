/** The parser's cursor: the part of the text that is still to be read, and the operations that
    shorten it. Each operation is given once on values and once on the object. */
module StringParser {
  import opened Wrappers

  const CRLF := "\r\n"
  const ASCII_HT := '\t'

  function Head(v: string): Outcome<char> {
    if v == [] then Fault else Ok(v[0])
  }

  function Drop(v: string, steps: nat): Outcome<string> {
    if steps <= |v| then Ok(v[steps..]) else Fault
  }

  function Expect(v: string, chars: string): Outcome<string> {
    if chars <= v then Ok(v[|chars|..]) else Err
  }

  /** Expect whose failure the caller ignores. */
  function Skip(v: string, chars: string): string {
    if chars <= v then v[|chars|..] else v
  }

  /** A mismatch reads the first character for its message, so it faults on an empty view. */
  function ExpectTwo(v: string, c1: char, c2: char): Outcome<string> {
    if v == [] then Fault else if v[0] == c1 || v[0] == c2 then Ok(v[1..]) else Err
  }

  function ConsumeAllTwo(v: string, c1: char, c2: char): (rest: string)
    ensures rest != [] ==> rest[0] != c1 && rest[0] != c2
  {
    if v != [] && (v[0] == c1 || v[0] == c2) then ConsumeAllTwo(v[1..], c1, c2) else v
  }

  /** What is consumed is exactly the longest prefix made of the two characters. */
  lemma {:induction false} ConsumedIsPrefix(v: string, c1: char, c2: char)
    ensures var rest := ConsumeAllTwo(v, c1, c2);
      && |rest| <= |v| && rest == v[|v| - |rest|..]
      && forall i :: 0 <= i < |v| - |rest| ==> v[i] == c1 || v[i] == c2
  {
    if v != [] && (v[0] == c1 || v[0] == c2) {
      ConsumedIsPrefix(v[1..], c1, c2);
    }
  }

  /** The first position at which `v` has one of the characters `cs`. */
  function Find(v: string, cs: string): (r: Option<nat>)
    ensures r.Some? ==> r.value < |v| && v[r.value] in cs && forall i :: 0 <= i < r.value ==> v[i] !in cs
    ensures r.None? ==> forall i :: 0 <= i < |v| ==> v[i] !in cs
  {
    if v == [] then None
    else if v[0] in cs then Some(0)
    else match Find(v[1..], cs)
         case None => None
         case Some(i) => Some(i + 1)
  }

  /** The text before the first delimiter, and the rest from the delimiter on. Without a
      delimiter the view is shortened by npos. */
  function NextToken(v: string, delim: char): Outcome<(string, string)> {
    match Find(v, [delim])
    case None => Fault
    case Some(i) => Ok((v[..i], v[i..]))
  }

  /** A call on the object agrees with an operation on its view: same outcome, and on success the
      same result and the same remaining view. */
  ghost predicate Agrees<T>(r: Outcome<T>, view: string, spec: Outcome<(T, string)>) {
    match spec
    case Ok((value, rest)) => r == Ok(value) && view == rest
    case Err => r.Err?
    case Fault => r.Fault?
  }

  function Pure(v: Outcome<string>): Outcome<((), string)> {
    match v
    case Ok(rest) => Ok(((), rest))
    case Err => Err
    case Fault => Fault
  }

  class StringParser {
    const str: string
    var view: string

    constructor (str: string)
      ensures this.str == str && view == str
    {
      this.str := str;
      this.view := str;
    }

    method Move(steps: nat) returns (r: Outcome<()>)
      modifies this
      ensures Agrees(r, view, Pure(Drop(old(view), steps))) && (!r.Ok? ==> view == old(view))
    {
      if |view| < steps {
        return Fault;
      }
      view := view[steps..];
      return Ok(());
    }

    method ExpectChars(chars: string) returns (r: Outcome<()>)
      modifies this
      ensures Agrees(r, view, Pure(Expect(old(view), chars)))
      ensures view == Skip(old(view), chars) && !r.Fault?
    {
      if !(chars <= view) {
        return Err;
      }
      view := view[|chars|..];
      return Ok(());
    }

    method ExpectTwoChars(c1: char, c2: char) returns (r: Outcome<()>)
      modifies this
      ensures Agrees(r, view, Pure(ExpectTwo(old(view), c1, c2))) && (!r.Ok? ==> view == old(view))
    {
      if view == [] {
        return Fault;
      }
      if view[0] != c1 && view[0] != c2 {
        return Err;
      }
      view := view[1..];
      return Ok(());
    }

    method ConsumeAllTwoChars(c1: char, c2: char)
      modifies this
      ensures view == ConsumeAllTwo(old(view), c1, c2)
    {
      while view != [] && (view[0] == c1 || view[0] == c2)
        invariant ConsumeAllTwo(view, c1, c2) == ConsumeAllTwo(old(view), c1, c2)
        decreases |view|
      {
        view := view[1..];
      }
    }

    method HeadChar() returns (r: Outcome<char>)
      ensures r == Head(view)
    {
      if view == [] {
        return Fault;
      }
      return Ok(view[0]);
    }

    method TakeToken(delim: char) returns (r: Outcome<string>)
      modifies this
      ensures Agrees(r, view, NextToken(old(view), delim))
    {
      var end := FindFirst(view, [delim]);
      if end.None? {
        return Fault;
      }
      r := Ok(view[..end.value]);
      view := view[end.value..];
    }
  }

  method FindFirst(v: string, cs: string) returns (r: Option<nat>)
    ensures r == Find(v, cs)
  {
    for i := 0 to |v|
      invariant forall j :: 0 <= j < i ==> v[j] !in cs
    {
      if v[i] in cs {
        FindIs(v, cs, i);
        return Some(i);
      }
    }
    return None;
  }

  lemma FindIs(v: string, cs: string, i: nat)
    requires i < |v| && v[i] in cs && forall j :: 0 <= j < i ==> v[j] !in cs
    ensures Find(v, cs) == Some(i)
  {
    assert Find(v, cs).Some?;
    var k := Find(v, cs).value;
    assert !(k < i) && !(i < k);
  }

  // ----- Reading is decided by what is read -----

  lemma FindExtends(v: string, cs: string, t: string)
    requires Find(v, cs).Some?
    ensures Find(v + t, cs) == Find(v, cs)
  {
    FindIs(v + t, cs, Find(v, cs).value);
  }

  lemma NextTokenExtends(v: string, delim: char, t: string)
    requires NextToken(v, delim).Ok?
    ensures var (token, rest) := NextToken(v, delim).value;
      NextToken(v + t, delim) == Ok((token, rest + t))
  {
    FindExtends(v, [delim], t);
    var i := Find(v, [delim]).value;
    assert (v + t)[..i] == v[..i] && (v + t)[i..] == v[i..] + t;
  }

  lemma {:induction false} ConsumeExtends(v: string, c1: char, c2: char, t: string)
    requires ConsumeAllTwo(v, c1, c2) != []
    ensures ConsumeAllTwo(v + t, c1, c2) == ConsumeAllTwo(v, c1, c2) + t
  {
    assert v != [] by {
      assert ConsumeAllTwo([], c1, c2) == [];
    }
    hide ConsumeAllTwo;
    ConsumeStep(v, c1, c2);
    ConsumeStep(v + t, c1, c2);
    if v[0] == c1 || v[0] == c2 {
      ConsumeExtends(v[1..], c1, c2, t);
      assert (v + t)[1..] == v[1..] + t;
    }
  }

  lemma ConsumeStep(v: string, c1: char, c2: char)
    requires v != []
    ensures ConsumeAllTwo(v, c1, c2) == if v[0] == c1 || v[0] == c2 then ConsumeAllTwo(v[1..], c1, c2) else v
  {
  }

  /** A failed test for `chars` is decided inside `v` once `v` holds a character that `chars` lacks. */
  lemma SkipExtends(v: string, chars: string, t: string, i: nat)
    requires i < |v| && v[i] !in chars
    ensures Skip(v + t, chars) == Skip(v, chars) + t
    ensures chars <= v + t <==> chars <= v
  {
    assert (v + t)[i] == v[i];
    if chars <= v {
      assert (v + t)[|chars|..] == v[|chars|..] + t;
    }
  }
}
