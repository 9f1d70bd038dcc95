// Declared config types and the schema-path lookup over them.
module ConfigTypes {
  import opened Options

  datatype TypeOperator = ReadonlyOf | KeyOf | UniqueOf

  datatype TypeNode =
    | Literal(members: seq<Member>)
    | Paren(inner: TypeNode)
    | Operator(op: TypeOperator, inner: TypeNode)
    | Intersection(parts: seq<TypeNode>)
    | Union(first: TypeNode, rest: seq<TypeNode>)
    | ArrayOf(element: TypeNode)
    | Indexed(container: TypeNode, key: Option<string>)
    | Reference(head: string, qualified: bool, args: seq<TypeNode>)
    | Parameter(name: string) // a reference to a type parameter of the enclosing declaration
    | OtherType

  // A property as written (`'a-b'` with its quotes) and the key it declares (`a-b`); a method or
  // accessor; an index signature with its key pattern; a call or construct signature.
  datatype Member =
    | Property(text: string, key: string, declared: Option<TypeNode>)
    | Method(key: string)
    | Index(pattern: string, value: TypeNode)
    | Signature

  // A heritage clause names a base by an identifier, or by an expression that is not followed.
  datatype Base = Named(name: string) | Computed

  datatype Decl =
    | Interface(members: seq<Member>, bases: seq<Base>)
    | Alias(body: TypeNode)
    | Enum

  // Where a declaration is: its file and its name there.
  datatype Site = Site(file: string, name: string)

  // All declarations, and what a type name used in a file resolves to; a name bound to something
  // external or out of reach resolves to a site without a declaration. Then the further
  // declarations the compiler merges with a first one, and the keys an index pattern admits.
  datatype World = World(
    decls: map<Site, Decl>, resolved: map<Site, Site>, merged: map<Site, seq<Site>>, admits: (string, string) -> bool)

  function DeclForTypeName(w: World, file: string, name: string): (r: Option<Site>)
    ensures r.Some? ==> r.value in w.decls
  {
    if Site(file, name) in w.resolved && w.resolved[Site(file, name)] in w.decls
    then Some(w.resolved[Site(file, name)])
    else None
  }

  datatype PathStep = Named(member: string) | Element

  predicate IsPropertyOf(m: Member, name: string) {
    m.Property? && m.text == name
  }

  // The first property signature written with the name.
  function FindProperty(members: seq<Member>, name: string): (r: Option<Member>)
    ensures r.Some? ==> IsPropertyOf(r.value, name) && r.value in members
  {
    if members == [] then None
    else if IsPropertyOf(members[0], name) then Some(members[0])
    else FindProperty(members[1..], name)
  }

  lemma {:induction false} FindsFirstProperty(members: seq<Member>, name: string)
    ensures match FindProperty(members, name)
      case None => forall i :: 0 <= i < |members| ==> !IsPropertyOf(members[i], name)
      case Some(m) => exists k :: 0 <= k < |members| && members[k] == m && IsPropertyOf(m, name)
                        && forall i :: 0 <= i < k ==> !IsPropertyOf(members[i], name)
  {
    if members != [] && !IsPropertyOf(members[0], name) {
      var rest := members[1..];
      FindsFirstProperty(rest, name);
      if FindProperty(rest, name).Some? {
        var k :| 0 <= k < |rest| && rest[k] == FindProperty(rest, name).value
          && forall i :: 0 <= i < k ==> !IsPropertyOf(rest[i], name);
        assert members[k + 1] == rest[k];
        assert forall i :: 1 <= i < k + 1 ==> members[i] == rest[i - 1];
      } else {
        assert forall i :: 1 <= i < |members| ==> members[i] == rest[i - 1];
      }
    }
  }

  predicate IsPassthrough(name: string) {
    name == "Partial" || name == "Required" || name == "Readonly" || name == "NonNullable"
  }

  predicate IsArrayName(name: string) {
    name == "Array" || name == "ReadonlyArray"
  }

  datatype Answer = Found | Missing | Unknown

  // Any found wins, else any unknown taints, else missing.
  function Combine(answers: seq<Answer>): Answer {
    if Found in answers then Found else if Unknown in answers then Unknown else Missing
  }

  // Presence on a union is definite only when every branch agrees.
  function Agree(answers: seq<Answer>): Answer {
    if forall a :: a in answers ==> a == Found then Found
    else if forall a :: a in answers ==> a == Missing then Missing
    else Unknown
  }

  // A declaration visited with a number of steps still to go.
  datatype Visit = Visit(site: Site, left: nat)

  // The walk answers and hands on the set of visits, or runs out of fuel, which stands for a
  // call stack that is still growing after that many declarations.
  datatype Outcome<A> = Done(value: A, seen: set<Visit>) | OutOfFuel
}
