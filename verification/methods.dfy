/** The HTTP request methods the server recognises, and lookup by name. */
module Methods {
  import opened Wrappers

  /** The nine enum constants, in declaration order. */
  datatype Method = GET | HEAD | POST | PUT | DELETE | CONNECT | OPTIONS | TRACE | PATCH

  /** `name()` of a constant: its identifier. */
  function Name(m: Method): string
  {
    match m
    case GET => "GET"
    case HEAD => "HEAD"
    case POST => "POST"
    case PUT => "PUT"
    case DELETE => "DELETE"
    case CONNECT => "CONNECT"
    case OPTIONS => "OPTIONS"
    case TRACE => "TRACE"
    case PATCH => "PATCH"
  }

  /** `Method.values`, the array returned by `values()`. */
  const Values: seq<Method> := [GET, HEAD, POST, PUT, DELETE, CONNECT, OPTIONS, TRACE, PATCH]

  /**
    `Arrays.stream(ms).filter(it -> it.name().equals(s)).findFirst()`, with
    `orElse(null)` as None: the first element whose name is exactly `s`.
   */
  function FindByName(ms: seq<Method>, s: string): (r: Option<Method>)
    ensures r.Some? ==> Name(r.value) == s
    ensures r.None? <==> forall i :: 0 <= i < |ms| ==> Name(ms[i]) != s
    ensures r.Some? ==> exists i :: 0 <= i < |ms| && ms[i] == r.value
                                    && forall j :: 0 <= j < i ==> Name(ms[j]) != s
  {
    if |ms| == 0 then None
    else if Name(ms[0]) == s then Some(ms[0])
    else
      var r := FindByName(ms[1..], s);
      assert forall i :: 1 <= i < |ms| ==> ms[i] == ms[1..][i - 1];
      r
  }

  /**
    `Method.fromString(s)`: the constant named exactly `s` (case-sensitive),
    or None for every other string.
   */
  function FromString(s: string): (r: Option<Method>)
    ensures r.Some? ==> Name(r.value) == s && r.value in Values
    ensures r.None? <==> forall m: Method :: Name(m) != s
  {
    var r := FindByName(Values, s);
    NotFoundMeansUnknown(s, r);
    r
  }

  /** Nothing in `values` is named `s` exactly when no constant is. */
  lemma NotFoundMeansUnknown(s: string, r: Option<Method>)
    requires r == FindByName(Values, s)
    ensures r.None? <==> forall m: Method :: Name(m) != s
  {
    if r.None? {
      forall m: Method
        ensures Name(m) != s
      {
        assert Values[Ordinal(m)] == m;
      }
    }
  }

  /** `ordinal()`: the position of a constant in `values`. */
  function Ordinal(m: Method): (i: nat)
    ensures i < |Values| && Values[i] == m
  {
    match m
    case GET => 0
    case HEAD => 1
    case POST => 2
    case PUT => 3
    case DELETE => 4
    case CONNECT => 5
    case OPTIONS => 6
    case TRACE => 7
    case PATCH => 8
  }

  /** Every constant appears in `values`. */
  lemma ValuesComplete()
    ensures forall m: Method :: m in Values
  {
    forall m: Method
      ensures m in Values
    {
      assert Values[Ordinal(m)] == m;
    }
  }

  /** `values` lists nine constants, none twice. */
  lemma ValuesDistinct()
    ensures |Values| == 9
    ensures forall i, j :: 0 <= i < j < |Values| ==> Values[i] != Values[j]
  {
  }

  /** Different constants have different names, so at most one constant matches any string. */
  lemma NameInjective(m1: Method, m2: Method)
    ensures Name(m1) == Name(m2) ==> m1 == m2
  {
  }

  /** Looking up a constant's own name gives the constant back. */
  lemma FromStringName(m: Method)
    ensures FromString(Name(m)) == Some(m)
  {
    var r := FromString(Name(m));
    if r.Some? {
      NameInjective(r.value, m);
    }
  }

  /** Names are matched exactly: lower case and the empty string are unknown. */
  lemma FromStringIsCaseSensitive()
    ensures FromString("get") == None
    ensures FromString("Get") == None
    ensures FromString("") == None
  {
    forall m: Method
      ensures Name(m) != "get" && Name(m) != "Get" && Name(m) != ""
    {
      SecondLetterIsUpper(m);
      assert "get"[1] == 'e' && "Get"[1] == 'e';
    }
  }

  /** Every name has at least two letters, the second one upper case. */
  lemma SecondLetterIsUpper(m: Method)
    ensures |Name(m)| > 1 && 'A' <= Name(m)[1] <= 'Z'
  {
  }
}
