/** Vocabulary shared by every part of the model: optional values, document ids,
    the six user roles, the authenticated caller, handler replies, and the string
    helpers the schemas depend on (JavaScript whitespace, `trim`, ASCII lower-casing). */
module Common {

  datatype Option<T> = None | Some(value: T)

  /** Mongo ObjectIds are opaque; naturals stand for them. */
  type Id = nat

  /** The role enum of the User schema. */
  datatype Role = Volunteer | TeamLeader | RequestChecker | Receptionist | Informer | Admin

  function RoleName(r: Role): string {
    match r
    case Volunteer => "volunteer"
    case TeamLeader => "teamLeader"
    case RequestChecker => "requestChecker"
    case Receptionist => "receptionist"
    case Informer => "informer"
    case Admin => "admin"
  }

  /** The string a request body carries, read back as a role. */
  function ParseRole(s: string): (r: Option<Role>)
    ensures r.Some? ==> RoleName(r.value) == s
    ensures forall x :: RoleName(x) == s ==> r == Some(x)
  {
    if s == "volunteer" then Some(Volunteer)
    else if s == "teamLeader" then Some(TeamLeader)
    else if s == "requestChecker" then Some(RequestChecker)
    else if s == "receptionist" then Some(Receptionist)
    else if s == "informer" then Some(Informer)
    else if s == "admin" then Some(Admin)
    else None
  }

  /** The user the authentication middleware attached to the request (`req.user`). */
  datatype Caller = Caller(id: Id, role: Role)

  /** What a handler sends back; the constructor names the HTTP status. */
  datatype Reply<T> =
    | Ok(value: T)                     // 200
    | Created(value: T)                // 201
    | BadRequest(message: string)      // 400
    | Unauthenticated(message: string) // 401
    | Forbidden(message: string)       // 403
    | NotFound(message: string)        // 404
    | ServerError(message: string)     // 500

  function HttpStatus<T>(r: Reply<T>): nat {
    match r
    case Ok(_) => 200
    case Created(_) => 201
    case BadRequest(_) => 400
    case Unauthenticated(_) => 401
    case Forbidden(_) => 403
    case NotFound(_) => 404
    case ServerError(_) => 500
  }

  /** The characters JavaScript's `trim` removes and the regex class `\s` matches. */
  predicate IsSpace(c: char) {
    var n := c as int;
    n == 0x09 || n == 0x0A || n == 0x0B || n == 0x0C || n == 0x0D || n == 0x20 ||
    n == 0xA0 || n == 0x1680 || (0x2000 <= n <= 0x200A) || n == 0x2028 || n == 0x2029 ||
    n == 0x202F || n == 0x205F || n == 0x3000 || n == 0xFEFF
  }

  /** True when every character is white space (the empty string included). */
  predicate IsBlank(s: string) {
    forall i :: 0 <= i < |s| ==> IsSpace(s[i])
  }

  /** `trimStart`: the longest suffix of `s` that does not begin with white space. */
  function TrimStart(s: string): (r: string)
    ensures |r| <= |s| && r == s[|s| - |r|..]
    ensures r == [] || !IsSpace(r[0])
    ensures IsBlank(s[..|s| - |r|])
  {
    if s != [] && IsSpace(s[0]) then TrimStart(s[1..]) else s
  }

  /** `trimEnd`: the longest prefix of `s` that does not end with white space. */
  function TrimEnd(s: string): (r: string)
    ensures |r| <= |s| && r == s[..|r|]
    ensures r == [] || !IsSpace(r[|r| - 1])
    ensures IsBlank(s[|r|..])
  {
    if s != [] && IsSpace(s[|s| - 1]) then TrimEnd(s[..|s| - 1]) else s
  }

  /** JavaScript's `String.prototype.trim`, which the schemas' `trim: true` applies. */
  function Trim(s: string): string {
    TrimEnd(TrimStart(s))
  }

  /** A trimmed string neither starts nor ends with white space, and it is empty
      exactly when the input was blank. */
  lemma TrimSpec(s: string)
    ensures var t := Trim(s); t == [] || (!IsSpace(t[0]) && !IsSpace(t[|t| - 1]))
    ensures Trim(s) == [] <==> IsBlank(s)
  {
    var a := TrimStart(s);
    var t := TrimEnd(a);
    if a != [] {
      // a starts with a non-space, so trimming its end keeps that character
      assert !IsSpace(a[0]);
      assert t != [] && t[0] == a[0];
      assert s[|s| - |a|] == a[0];
    } else {
      assert s[..|s| - |a|] == s;
    }
  }

  /** Trimming twice is trimming once. */
  lemma {:induction false} TrimIdempotent(s: string)
    ensures Trim(Trim(s)) == Trim(s)
  {
    var t := Trim(s);
    TrimSpec(s);
    if t != [] {
      assert TrimStart(t) == t;
      assert TrimEnd(t) == t;
    }
  }

  /** ASCII lower-casing of one character. */
  function LowerChar(c: char): char {
    if 'A' <= c <= 'Z' then (c as int + 32) as char else c
  }

  /** Lower-casing as the schemas' `lowercase: true` does it (ASCII letters only). */
  function Lower(s: string): (r: string)
    ensures |r| == |s|
    ensures forall i :: 0 <= i < |s| ==> r[i] == LowerChar(s[i])
  {
    if s == [] then [] else [LowerChar(s[0])] + Lower(s[1..])
  }

  /** Lower-casing twice is lower-casing once. */
  lemma LowerIdempotent(s: string)
    ensures Lower(Lower(s)) == Lower(s)
  {
    var l := Lower(s);
    assert forall i :: 0 <= i < |l| ==> LowerChar(l[i]) == l[i];
  }

  /** A key not used by any stored document: one more than the largest key
      (standing for the ObjectId Mongo generates on insert). */
  method FreshId(used: set<Id>) returns (r: Id)
    ensures r !in used
    ensures forall x :: x in used ==> x < r
  {
    var rest, done := used, {};
    r := 0;
    while rest != {}
      invariant rest + done == used
      invariant forall x :: x in done ==> x < r
      decreases |rest|
    {
      var x :| x in rest;
      if r <= x {
        r := x + 1;
      }
      rest, done := rest - {x}, done + {x};
    }
  }

  /** No element occurs twice. */
  predicate Distinct(s: seq<Id>) {
    forall i, j :: 0 <= i < j < |s| ==> s[i] != s[j]
  }

  /** The values a list holds. */
  function Elements(s: seq<Id>): set<Id> {
    set x | x in s
  }

  /** A list without repetitions has as many elements as it has distinct values. */
  lemma {:induction false} DistinctCount(s: seq<Id>)
    requires Distinct(s)
    ensures |Elements(s)| == |s|
  {
    if s == [] {
      assert Elements(s) == {};
    } else {
      var t := s[1..];
      assert Distinct(t) by {
        forall i, j | 0 <= i < j < |t| ensures t[i] != t[j] {
          assert t[i] == s[i + 1] && t[j] == s[j + 1];
        }
      }
      DistinctCount(t);
      var rest := Elements(t);
      assert s[0] !in rest by {
        forall i | 0 <= i < |t| ensures t[i] != s[0] {
          assert t[i] == s[i + 1];
        }
      }
      assert Elements(s) == rest + {s[0]} by {
        assert s == [s[0]] + t;
      }
      assert |rest + {s[0]}| == |rest| + 1;
    }
  }

  /** Every key of `s` has a weight, and the weights never increase along `s`. */
  predicate SortedDesc(s: seq<Id>, w: map<Id, nat>) {
    (forall i :: 0 <= i < |s| ==> s[i] in w) &&
    (forall i, j :: 0 <= i < j < |s| ==> w[s[i]] >= w[s[j]])
  }

  /** Inserts `k` into a list ordered by decreasing weight, in front of the first
      element that does not weigh more. */
  function InsertDesc(s: seq<Id>, w: map<Id, nat>, k: Id): (r: seq<Id>)
    requires k in w && SortedDesc(s, w)
    ensures |r| == |s| + 1
    ensures forall x :: x in r <==> x in s || x == k
    ensures SortedDesc(r, w)
    ensures k !in s && Distinct(s) ==> Distinct(r)
  {
    if s == [] then [k]
    else if w[s[0]] <= w[k] then [k] + s
    else
      var tail := InsertDesc(s[1..], w, k);
      assert forall x :: x in s[1..] ==> x in s;
      assert forall i :: 0 <= i < |tail| ==> w[s[0]] >= w[tail[i]] by {
        forall i | 0 <= i < |tail| ensures w[s[0]] >= w[tail[i]] {
          assert tail[i] in s[1..] || tail[i] == k;
        }
      }
      assert Distinct(s) ==> s[0] !in s[1..];
      [s[0]] + tail
  }

  /** All keys of `w`, heaviest first: the order of a Mongo query sorted with
      `{ field: -1 }`.  Keys of equal weight come out in no particular order. */
  method SortByWeightDesc(w: map<Id, nat>) returns (r: seq<Id>)
    ensures forall x :: x in r <==> x in w
    ensures Distinct(r)
    ensures SortedDesc(r, w)
  {
    var rest := w.Keys;
    r := [];
    while rest != {}
      invariant rest <= w.Keys
      invariant forall x :: x in r <==> x in w.Keys - rest
      invariant Distinct(r) && SortedDesc(r, w)
      decreases |rest|
    {
      var k :| k in rest;
      r := InsertDesc(r, w, k);
      rest := rest - {k};
    }
  }
}
