/** Where in an ordered list a transparent cube is inserted.  Position 0 is the
    innermost one, next to the port or netdev. */
module AttachOrder {

  datatype Result<T> = Ok(value: T) | Error(message: string)

  datatype Comparison = BEFORE | AFTER | UNKNOWN

  const NO_SUCH_CUBE := "Cube doesn't exist"
  const NO_AUTO_POSITION := "Impossible to determine auto position"

  /** The services with a preferred place, innermost first; -1 for all others. */
  function Rank(service: string): int {
    if service == "nat" then 0 else if service == "ddosmitigator" then 1 else -1
  }

  function Compare(a: string, b: string): Comparison {
    if Rank(a) == -1 || Rank(b) == -1 then UNKNOWN
    else if Rank(a) < Rank(b) then BEFORE
    else if Rank(a) > Rank(b) then AFTER
    else UNKNOWN
  }

  /** Only these two services can be compared, with each other: "nat" belongs inside. */
  lemma OnlyNatAndDdosMitigator(a: string, b: string)
    ensures Compare(a, b) == BEFORE <==> a == "nat" && b == "ddosmitigator"
    ensures Compare(a, b) == AFTER <==> a == "ddosmitigator" && b == "nat"
  {
  }

  ghost predicate Comparable(service: string, services: seq<string>) {
    forall i :: 0 <= i < |services| ==> Compare(service, services[i]) != UNKNOWN
  }

  /** The list is in the preferred order. */
  ghost predicate Ordered(services: seq<string>) {
    && (forall i :: 0 <= i < |services| ==> Rank(services[i]) >= 0)
    && (forall i, j :: 0 <= i < j < |services| ==> Rank(services[i]) < Rank(services[j]))
  }

  function Insert<T>(s: seq<T>, i: nat, x: T): (r: seq<T>)
    requires i <= |s|
    ensures |r| == |s| + 1 && r[i] == x
    ensures forall j :: 0 <= j < i ==> r[j] == s[j]
    ensures forall j :: i <= j < |s| ==> r[j + 1] == s[j]
  {
    s[..i] + [x] + s[i..]
  }

  /** The first position of a name, or the length of the list. */
  method IndexOf(names: seq<string>, name: string) returns (i: nat)
    ensures i <= |names| && (i < |names| ==> names[i] == name)
    ensures forall j :: 0 <= j < i ==> names[j] != name
  {
    i := 0;
    while i < |names| && names[i] != name
      invariant i <= |names| && forall j :: 0 <= j < i ==> names[j] != name
    {
      i := i + 1;
    }
  }

  /** "auto": behind the last cube the service belongs after.  The second search, from
      the other end, starts only when an incomparable cube was met, and then meets it
      again: it never finds a position. */
  method AutoPosition(service: string, services: seq<string>, garbage: Comparison) returns (r: Result<nat>)
    ensures r.Ok? <==> Comparable(service, services)
    ensures r.Error? ==> r.message == NO_AUTO_POSITION
    ensures r.Ok? ==> r.value <= |services|
    ensures r.Ok? && r.value > 0 ==> Compare(service, services[r.value - 1]) == AFTER
    ensures r.Ok? ==> forall j :: r.value <= j < |services| ==> Compare(service, services[j]) == BEFORE
  {
    var index, cmp, i := 0, garbage, 0;
    while i < |services|
      invariant index <= i <= |services| && Comparable(service, services[..i])
      invariant index > 0 ==> Compare(service, services[index - 1]) == AFTER
      invariant forall j :: index <= j < i ==> Compare(service, services[j]) == BEFORE
      invariant i > 0 ==> cmp == Compare(service, services[i - 1])
    {
      cmp := Compare(service, services[i]);
      if cmp == AFTER {
        index := i + 1;
      } else if cmp == UNKNOWN {
        break;
      }
      i := i + 1;
    }
    ghost var met := i;
    assert services != [] ==> (cmp == UNKNOWN <==> met < |services|);
    if cmp == UNKNOWN {
      i := |services|;
      while i > 0
        invariant 0 <= i <= |services| && forall j :: i <= j < |services| ==> Compare(service, services[j]) != UNKNOWN
        invariant services == [] ==> index == 0
      {
        i := i - 1;
        cmp := Compare(service, services[i]);
        if cmp == BEFORE {
          index := i;
        } else if cmp == UNKNOWN {
          return Error(NO_AUTO_POSITION);
        }
      }
    }
    assert met == |services| ==> services[..met] == services;
    r := Ok(index);
  }

  /** Inserting a service at its automatic position keeps the preferred order. */
  lemma AutoKeepsOrder(service: string, services: seq<string>, index: nat)
    requires Ordered(services) && Rank(service) >= 0 && index <= |services|
    requires index > 0 ==> Compare(service, services[index - 1]) == AFTER
    requires forall j :: index <= j < |services| ==> Compare(service, services[j]) == BEFORE
    ensures Ordered(Insert(services, index, service))
  {
    var r := Insert(services, index, service);
    forall i, j | 0 <= i < j < |r| ensures Rank(r[i]) < Rank(r[j]) {
      if i < index <= j {
        assert r[i] == services[i] && (i < index - 1 ==> Rank(services[i]) < Rank(services[index - 1]));
        assert j > index ==> r[j] == services[j - 1];
      } else if i < index {
        assert r[i] == services[i] && r[j] == services[j];
      } else {
        assert r[j] == services[j - 1];
        assert i > index ==> r[i] == services[i - 1];
      }
    }
    forall i | 0 <= i < |r| ensures Rank(r[i]) >= 0 {
      assert i > index ==> r[i] == services[i - 1];
    }
  }

  /** The positions a caller may ask for without leaving the list: "before" and "after"
      name another cube, and "after" one that is attached.  The lookup of that cube
      reports an error only for an empty list. */
  ghost predicate MayAsk(names: seq<string>, position: string, other: string) {
    && (position == "before" ==> other != "")
    && (position == "after" ==> other != "" && (names == [] || other in names))
  }

  /** When a request is refused: another cube is named but none is attached, or there is no
      automatic position. */
  ghost predicate Refused(names: seq<string>, services: seq<string>, service: string, position: string, other: string) {
    (other != "" && names == []) || (position == "auto" && !Comparable(service, services))
  }

  /** Position i is the one asked for. */
  ghost predicate RightPlace(names: seq<string>, services: seq<string>, service: string,
                             position: string, other: string, i: nat)
    requires |names| == |services|
  {
    && i <= |names|
    && (position == "auto" ==> (i > 0 ==> Compare(service, services[i - 1]) == AFTER)
                               && forall j :: i <= j < |services| ==> Compare(service, services[j]) == BEFORE)
    && (position == "auto" && Ordered(services) && Rank(service) >= 0 ==> Ordered(Insert(services, i, service)))
    && (position == "last" ==> i == |names|)
    && (position == "before" && other in names ==> i < |names| && names[i] == other && other !in names[..i])
    && (position == "before" && other !in names ==> i == |names|)
    && (position == "after" ==> i > 0 && names[i - 1] == other && other !in names[..i - 1])
    && (position !in ["auto", "last", "before", "after"] ==> i == 0)
  }

  method FindPosition(names: seq<string>, services: seq<string>, service: string, position: string, other: string,
                      garbage: Comparison)
    returns (r: Result<nat>)
    requires |names| == |services| && MayAsk(names, position, other)
    ensures r.Error? <==> Refused(names, services, service, position, other)
    ensures r.Error? ==> r.message == if other != "" && names == [] then NO_SUCH_CUBE else NO_AUTO_POSITION
    ensures r.Ok? ==> RightPlace(names, services, service, position, other, r.value)
  {
    var index, otherIndex := 0, 0;
    if other != "" {
      otherIndex := IndexOf(names, other);
      if index == |names| { return Error(NO_SUCH_CUBE); }
    }
    if position == "auto" {
      r := AutoPosition(service, services, garbage);
      if r.Ok? && Ordered(services) && Rank(service) >= 0 { AutoKeepsOrder(service, services, r.value); }
      return;
    } else if position == "first" {
      index := 0;
    } else if position == "last" {
      index := |names|;
    } else if position == "before" {
      index := otherIndex;
    } else if position == "after" {
      index := otherIndex + 1;
    }
    r := Ok(index);
  }
}
