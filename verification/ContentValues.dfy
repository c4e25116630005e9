/** `MadContentValues::Impl`: a set of keys, a vector of values, and a map from keys to positions, which together
    represent one map from keys to values. */
module ContentValues {
  import opened CStrings

  /** `Data`; its constructor gives the type. */
  datatype Data = Integer(i: int) | Real(r: real) | Text(s: string) | Blob(bytes: seq<byte>)

  datatype SqlDataType = NONE | INT | REAL | TEXT | BLOB

  function TypeOf(d: Data): SqlDataType {
    match d
    case Integer(_) => INT
    case Real(_) => REAL
    case Text(_) => TEXT
    case Blob(_) => BLOB
  }

  /** The conversions between types that the language or its library does. */
  datatype Conversions = Conversions(
    realToInteger: real -> int,
    textToInteger: string -> int,
    blobToInteger: seq<byte> -> int,
    integerToReal: int -> real,
    textToReal: string -> real,
    blobToReal: seq<byte> -> real,
    integerToText: int -> string,
    realToText: real -> string)

  /** A value as an integer: itself, if it is one. */
  function IntegerOf(d: Data, lib: Conversions): int {
    match d
    case Integer(n) => n
    case Real(r) => lib.realToInteger(r)
    case Text(s) => lib.textToInteger(s)
    case Blob(bytes) => lib.blobToInteger(bytes)
  }

  function RealOf(d: Data, lib: Conversions): real {
    match d
    case Integer(n) => lib.integerToReal(n)
    case Real(r) => r
    case Text(s) => lib.textToReal(s)
    case Blob(bytes) => lib.blobToReal(bytes)
  }

  /** The bytes of a blob are taken for characters. */
  function TextOf(d: Data, lib: Conversions): string {
    match d
    case Integer(n) => lib.integerToText(n)
    case Real(r) => lib.realToText(r)
    case Text(s) => s
    case Blob(bytes) => seq(|bytes|, k requires 0 <= k < |bytes| => bytes[k] as char)
  }

  /** Each getter returns a value of its own type as it is; the text of a blob has its bytes. */
  lemma OwnTypeIsKept(n: int, r: real, s: string, bytes: seq<byte>, lib: Conversions)
    ensures IntegerOf(Integer(n), lib) == n && RealOf(Real(r), lib) == r && TextOf(Text(s), lib) == s
    ensures var t := TextOf(Blob(bytes), lib);
            |t| == |bytes| && forall k :: 0 <= k < |bytes| ==> t[k] as int == bytes[k]
  {
  }

  ghost predicate IsPosition(m: map<string, nat>, i: nat) {
    exists k :: k in m && m[k] == i
  }

  /** Every key has a position below `n` of its own, and every position belongs to a key. */
  ghost predicate Bijection(m: map<string, nat>, n: nat) {
    && (forall k :: k in m ==> m[k] < n)
    && (forall k, k' :: k in m && k' in m && m[k] == m[k'] ==> k == k')
    && (forall i :: 0 <= i < n ==> IsPosition(m, i))
  }

  ghost function MapOf(m: map<string, nat>, values: seq<Data>): map<string, Data>
    requires Bijection(m, |values|)
  {
    map k | k in m :: values[m[k]]
  }

  lemma Overwrite(m: map<string, nat>, values: seq<Data>, key: string, data: Data)
    requires Bijection(m, |values|) && key in m
    ensures MapOf(m, values[m[key] := data]) == MapOf(m, values)[key := data]
  {
  }

  lemma Append(m: map<string, nat>, values: seq<Data>, key: string, data: Data)
    requires Bijection(m, |values|) && key !in m
    ensures Bijection(m[key := |values|], |values| + 1)
    ensures MapOf(m[key := |values|], values + [data]) == MapOf(m, values)[key := data]
  {
    var n, m' := |values|, m[key := |values|];
    assert key in m' && m'[key] == n;
    assert IsPosition(m', n);
    forall i | 0 <= i < n
      ensures IsPosition(m', i)
    {
      assert IsPosition(m, i);
      var k :| k in m && m[k] == i;
      assert k in m' && m'[k] == i;
    }
  }

  class ContentValues {
    var keySet: set<string>        // _keys
    var values: seq<Data>          // _values
    var dataMap: map<string, nat>  // _dataMap

    /** The keys of the three fields agree, and the map is a bijection onto the positions of the vector. */
    ghost predicate Valid()
      reads this
    {
      keySet == dataMap.Keys && Bijection(dataMap, |values|)
    }

    /** The map that the fields represent. */
    ghost function Contents(): map<string, Data>
      requires Valid()
      reads this
    {
      MapOf(dataMap, values)
    }

    constructor ()
      ensures Valid() && Contents() == map[]
    {
      keySet, values, dataMap := {}, [], map[];
    }

    predicate IsEmpty()
      reads this
    {
      |keySet| == 0
    }

    predicate ContainsKey(key: string)
      reads this
    {
      key in keySet
    }

    method GetData(key: string) returns (d: Data)
      requires Valid() && ContainsKey(key)
      ensures key in Contents() && d == Contents()[key]
    {
      var i := dataMap[key];
      d := values[i];
    }

    method TypeForKey(key: string) returns (t: SqlDataType)
      requires Valid()
      ensures t == if key in Contents() then TypeOf(Contents()[key]) else NONE
    {
      if ContainsKey(key) {
        var d := GetData(key);
        return TypeOf(d);
      }
      return NONE;
    }

    /** Reading a value as an integer; a missing key gives 0. */
    method GetAsInteger(key: string, lib: Conversions) returns (i: int)
      requires Valid()
      ensures i == if key in Contents() then IntegerOf(Contents()[key], lib) else 0
    {
      if ContainsKey(key) {
        var d := GetData(key);
        match d {
          case Integer(n) => return n;
          case Real(r) => return lib.realToInteger(r);
          case Text(s) => return lib.textToInteger(s);
          case Blob(bytes) => return lib.blobToInteger(bytes);
        }
      }
      return 0;
    }

    method GetAsReal(key: string, lib: Conversions) returns (r: real)
      requires Valid()
      ensures r == if key in Contents() then RealOf(Contents()[key], lib) else 0.0
    {
      if ContainsKey(key) {
        var d := GetData(key);
        match d {
          case Integer(n) => return lib.integerToReal(n);
          case Real(x) => return x;
          case Text(s) => return lib.textToReal(s);
          case Blob(bytes) => return lib.blobToReal(bytes);
        }
      }
      return 0.0;
    }

    method GetAsText(key: string, lib: Conversions) returns (s: string)
      requires Valid()
      ensures s == if key in Contents() then TextOf(Contents()[key], lib) else ""
    {
      if ContainsKey(key) {
        var d := GetData(key);
        match d {
          case Integer(n) => return lib.integerToText(n);
          case Real(r) => return lib.realToText(r);
          case Text(t) => return t;
          case Blob(bytes) => return seq(|bytes|, k requires 0 <= k < |bytes| => bytes[k] as char);
        }
      }
      return "";
    }

    /** Of a value of another type the bytes are empty. */
    method GetAsBlob(key: string) returns (bytes: seq<byte>)
      requires Valid()
      ensures bytes == if key in Contents() && Contents()[key].Blob? then Contents()[key].bytes else []
    {
      bytes := [];
      if ContainsKey(key) {
        var d := GetData(key);
        if d.Blob? {
          bytes := d.bytes;
        }
      }
    }

    method PutData(key: string, data: Data)
      requires Valid()
      modifies this
      ensures Valid() && Contents() == old(Contents())[key := data]
    {
      if ContainsKey(key) {
        var i := dataMap[key];
        Overwrite(dataMap, values, key, data);
        values := values[i := data];
      } else {
        var i := |values|;
        Append(dataMap, values, key, data);
        values := values + [data];
        dataMap := dataMap[key := i];
      }
      keySet := keySet + {key};
    }

    method Clear()
      modifies this
      ensures Valid() && Contents() == map[]
    {
      keySet := {};
      values := [];
      dataMap := map[];
    }

    /** The keys in any order, each once. */
    method Keys() returns (ks: seq<string>)
      requires Valid()
      ensures |ks| == |Contents()| && forall k :: k in ks <==> k in Contents()
      ensures forall i, j :: 0 <= i < j < |ks| ==> ks[i] != ks[j]
    {
      ks := [];
      var todo := keySet;
      while todo != {}
        invariant todo <= keySet && |ks| + |todo| == |keySet|
        invariant forall k :: k in ks <==> k in keySet - todo
        invariant forall i, j :: 0 <= i < j < |ks| ==> ks[i] != ks[j]
        decreases |todo|
      {
        var k :| k in todo;
        assert k !in ks;
        ks := ks + [k];
        todo := todo - {k};
      }
      assert Contents().Keys == keySet;
    }
  }

  // ---------------------------------------------------------------- all runs of puts and clears

  datatype Op = Put(key: string, data: Data) | ClearAll

  /** The map after a sequence of operations. */
  function Result(ops: seq<Op>): map<string, Data> {
    if ops == [] then map[]
    else
      var before := Result(ops[..|ops| - 1]);
      match ops[|ops| - 1]
      case Put(key, data) => before[key := data]
      case ClearAll => map[]
  }

  /** Operation `i` is the last put of a key, and nothing was cleared after it. */
  predicate IsLastPut(ops: seq<Op>, key: string, i: nat)
    requires i < |ops|
  {
    ops[i].Put? && ops[i].key == key &&
    forall j :: i < j < |ops| ==> ops[j].Put? && ops[j].key != key
  }

  /** A key has exactly the value of its last put since the last clear. */
  lemma {:induction false} LastPutWins(ops: seq<Op>, key: string)
    ensures key in Result(ops) <==> exists i :: 0 <= i < |ops| && IsLastPut(ops, key, i)
    ensures forall i :: 0 <= i < |ops| && IsLastPut(ops, key, i) ==>
              key in Result(ops) && Result(ops)[key] == ops[i].data
  {
    if ops != [] {
      var init, last := ops[..|ops| - 1], ops[|ops| - 1];
      LastPutWins(init, key);
      if last == ClearAll || last.key == key {
        assert last.Put? ==> IsLastPut(ops, key, |ops| - 1);
      } else {
        assert forall i :: 0 <= i < |init| ==> IsLastPut(ops, key, i) == IsLastPut(init, key, i);
      }
    }
  }

  /** Any sequence of puts and clears, applied to a new object. */
  method Replay(ops: seq<Op>) returns (cv: ContentValues)
    ensures fresh(cv) && cv.Valid() && cv.Contents() == Result(ops)
  {
    cv := new ContentValues();
    var i := 0;
    while i < |ops|
      invariant 0 <= i <= |ops| && fresh(cv) && cv.Valid() && cv.Contents() == Result(ops[..i])
    {
      assert ops[..i + 1][..i] == ops[..i];
      match ops[i] {
        case Put(key, data) => cv.PutData(key, data);
        case ClearAll => cv.Clear();
      }
      i := i + 1;
    }
    assert ops[..i] == ops;
  }
}
