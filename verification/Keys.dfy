// The strings under which file content and metadata are stored in Redis.
module Keys {
  import opened Basics

  function DigitChar(d: int): (c: char)
    ensures 0 <= d < 10 ==> c as int == '0' as int + d
  {
    if 0 <= d < 10 then ('0' as int + d) as char else '0'
  }

  function Digits(n: nat): (s: string)
    ensures s != []
    ensures forall i :: 0 <= i < |s| ==> '0' <= s[i] <= '9'
  {
    Decimal(n, DigitChar)
  }

  // Number denoted by a string of decimal digits.
  function DigitsValue(s: string): (n: nat)
    requires forall i :: 0 <= i < |s| ==> '0' <= s[i] <= '9'
  {
    if s == [] then 0
    else 10 * DigitsValue(s[..|s| - 1]) + (s[|s| - 1] as int - '0' as int)
  }

  lemma {:induction false} DigitsRoundTrip(n: nat)
    ensures DigitsValue(Digits(n)) == n
    decreases n
  {
    var s := Digits(n);
    if n < 10 {
      assert s[..0] == [];
    } else {
      DigitsRoundTrip(n / 10);
      assert s[..|s| - 1] == Digits(n / 10);
    }
  }

  // A stripe id as fmt.Sprintf("%d") and strconv print it.
  function Itoa(n: int): (s: string)
    ensures s != []
    ensures NoColon(s) && (s[0] == '-' || '0' <= s[0] <= '9')
  {
    if n < 0 then "-" + Digits(-n) else Digits(n)
  }

  predicate AllDigits(s: string) { forall i :: 0 <= i < |s| ==> '0' <= s[i] <= '9' }

  // What redis.Int64s makes of one member of a stripe set.
  function Atoi(s: string): int
  {
    if AllDigits(s) then DigitsValue(s)
    else if AllDigits(s[1..]) && s[0] == '-' then 0 - DigitsValue(s[1..])
    else 0
  }

  lemma AtoiItoa(n: int)
    ensures Atoi(Itoa(n)) == n
  {
    var s := Itoa(n);
    if n < 0 {
      DigitsRoundTrip(-n);
      assert s[1..] == Digits(-n);
      assert s[0] == '-';
    } else {
      DigitsRoundTrip(n);
    }
  }

  function StripeKey(name: string, id: int): string { name + ":" + Itoa(id) }

  function StripesKey(name: string): string { name + ":stripes" }

  function Prefix(path: string): string { "{" + path + "}" }

  function ModeKey(path: string): string { Prefix(path) + ":mode" }

  function ChildrenKey(path: string): string { Prefix(path) + ":children" }

  predicate NoColon(s: string) { forall i :: 0 <= i < |s| ==> s[i] != ':' }

  // What follows the last colon of a key: the part that tells the key families apart.
  function Tail(s: string): (t: string)
    ensures |t| <= |s|
  {
    if s == [] || s[|s| - 1] == ':' then [] else Tail(s[..|s| - 1]) + [s[|s| - 1]]
  }

  lemma {:induction false} TailOfJoin(a: string, b: string)
    requires NoColon(b)
    ensures Tail(a + ":" + b) == b
    decreases |b|
  {
    var s := a + ":" + b;
    if b != [] {
      var b' := b[..|b| - 1];
      assert s[..|s| - 1] == a + ":" + b';
      assert s[|s| - 1] == b[|b| - 1];
      TailOfJoin(a, b');
    }
  }

  lemma SameJoin(a: string, b: string, a': string, b': string)
    requires NoColon(b) && NoColon(b')
    requires a + ":" + b == a' + ":" + b'
    ensures a == a' && b == b'
  {
    TailOfJoin(a, b);
    TailOfJoin(a', b');
    var s := a + ":" + b;
    assert a == s[..|s| - |b| - 1];
    assert a' == s[..|s| - |b'| - 1];
  }

  lemma TailsOfKeys(name: string, id: int)
    ensures Tail(StripeKey(name, id)) == Itoa(id)
    ensures Tail(StripesKey(name)) == "stripes"
    ensures Tail(ModeKey(name)) == "mode"
    ensures Tail(ChildrenKey(name)) == "children"
  {
    TailOfJoin(name, Itoa(id));
    assert StripesKey(name) == name + ":" + "stripes";
    TailOfJoin(name, "stripes");
    assert ModeKey(name) == Prefix(name) + ":" + "mode";
    TailOfJoin(Prefix(name), "mode");
    assert ChildrenKey(name) == Prefix(name) + ":" + "children";
    TailOfJoin(Prefix(name), "children");
  }

  // A stripe key determines the file and the stripe it was printed from.
  lemma StripeKeyInjective(name: string, id: int, name': string, id': int)
    ensures StripeKey(name, id) == StripeKey(name', id') ==> name == name' && id == id'
  {
    if StripeKey(name, id) == StripeKey(name', id') {
      SameJoin(name, Itoa(id), name', Itoa(id'));
      AtoiItoa(id);
      AtoiItoa(id');
    }
  }

  lemma StripesKeyInjective(name: string, name': string)
    ensures StripesKey(name) == StripesKey(name') ==> name == name'
  {
    assert name == StripesKey(name)[..|StripesKey(name)| - 8];
    assert name' == StripesKey(name')[..|StripesKey(name')| - 8];
  }

  lemma MetaKeyInjective(path: string, path': string)
    ensures ModeKey(path) == ModeKey(path') ==> path == path'
    ensures ChildrenKey(path) == ChildrenKey(path') ==> path == path'
  {
    assert path == ModeKey(path)[1..|ModeKey(path)| - 6];
    assert path' == ModeKey(path')[1..|ModeKey(path')| - 6];
    assert path == ChildrenKey(path)[1..|ChildrenKey(path)| - 10];
    assert path' == ChildrenKey(path')[1..|ChildrenKey(path')| - 10];
  }

  // The four key families never meet.
  lemma KeyFamiliesDisjoint(name: string, id: int, name': string)
    ensures StripeKey(name, id) != StripesKey(name')
    ensures StripeKey(name, id) != ModeKey(name')
    ensures StripeKey(name, id) != ChildrenKey(name')
    ensures StripesKey(name) != ModeKey(name')
    ensures StripesKey(name) != ChildrenKey(name')
    ensures ModeKey(name) != ChildrenKey(name')
  {
    TailsOfKeys(name, id);
    TailsOfKeys(name', id);
    assert Itoa(id)[0] == '-' || '0' <= Itoa(id)[0] <= '9';
    assert "stripes"[0] == 's' && "mode"[0] == 'm' && "children"[0] == 'c';
  }
}
