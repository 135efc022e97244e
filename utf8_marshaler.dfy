/** `UTF8Marshaler`: the custom marshaler that passes strings to the native
    engine as NUL-terminated UTF-8 buffers and reads native NUL-terminated
    UTF-8 strings back. Native memory is an array of bytes; the zero pointer
    is null. */
module Utf8Marshaling {
  import opened Common
  import opened Utf8

  /** The message key of the exception for a non-string object. */
  const IncompatibleType := "Messages.ExceptionIncompatibleType"

  /** The buffer marshalled for `s`: its UTF-8 bytes and one terminating
      zero. */
  function Frame(s: string): (r: seq<byte>)
    ensures |r| == |Encode(s)| + 1 && r[|r| - 1] == 0
  {
    Encode(s) + [0]
  }

  /** The position of the first zero byte. */
  function FirstZero(b: seq<byte>): (r: nat)
    requires 0 in b
    ensures r < |b| && b[r] == 0 && 0 !in b[..r]
  {
    if b[0] == 0 then 0
    else
      var k := FirstZero(b[1..]);
      assert b[..k + 1] == [b[0]] + b[1..][..k];
      k + 1
  }

  /** A zero byte with no zero byte before it is the first one. */
  lemma FirstZeroAt(b: seq<byte>, k: nat)
    requires k < |b| && b[k] == 0 && 0 !in b[..k]
    ensures FirstZero(b) == k
  {
  }

  /** The string read from a native buffer: the decoding of the bytes before
      its first zero byte. */
  function Unframe(b: seq<byte>): string
    requires 0 in b
  {
    Decode(b[..FirstZero(b)])
  }

  /** `s` up to its first U+0000. */
  function TruncateAtNul(s: string): (r: string)
    ensures '\0' !in r
    ensures r == s <==> '\0' !in s
    ensures '\0' in s ==> r + ['\0'] <= s
  {
    if s == [] then []
    else if s[0] == '\0' then []
    else
      var t := TruncateAtNul(s[1..]);
      assert [s[0]] + t == s <==> t == s[1..];
      [s[0]] + t
  }

  /** Reading back a marshalled string gives the string, cut at its first
      U+0000. */
  lemma {:induction false} UnframeFrame(s: string)
    ensures Unframe(Frame(s)) == TruncateAtNul(s)
  {
    var a := TruncateAtNul(s);
    if a == s {
      assert Frame(s) == Encode(a) + [0] + [];
      UnframeEncoded(a, []);
    } else {
      var b := s[|a| + 1..];
      assert s == s[..|a| + 1] + b;
      assert s[..|a| + 1] == a + ['\0'];
      var e := EncodeAroundNul(a, b);
      assert Frame(s) == Encode(a) + [0] + e;
      UnframeEncoded(a, e);
    }
  }

  /** The encoding of a string split by U+0000 is the encodings of the two
      parts around a zero byte. */
  lemma EncodeAroundNul(a: string, b: string) returns (e: seq<byte>)
    ensures Encode(a + ['\0'] + b) + [0] == Encode(a) + [0] + e
  {
    var ea, eb := Encode(a), Encode(b);
    var an := a + ['\0'];
    EncodeNul();
    EncodeAppend(a, ['\0']);
    EncodeAppend(an, b);
    calc {
      Encode(an + b) + [0];
      (Encode(an) + eb) + [0];
      ((ea + [0]) + eb) + [0];
      { assert ((ea + [0]) + eb) + [0] == (ea + [0]) + (eb + [0]); }
      (ea + [0]) + (eb + [0]);
    }
    e := eb + [0];
  }

  /** U+0000 encodes as the single zero byte. */
  lemma EncodeNul()
    ensures Encode(['\0']) == [0]
  {
    assert EncodeChar('\0') == [0];
    assert ['\0'][1..] == [];
  }

  /** Whatever follows the terminator, a buffer that starts with the
      encoding of a string without U+0000 and a zero byte reads back as that
      string. */
  lemma UnframeEncoded(a: string, rest: seq<byte>)
    requires '\0' !in a
    ensures Unframe(Encode(a) + [0] + rest) == a
  {
    var f := Encode(a) + [0] + rest;
    EncodeZeroIffNul(a);
    assert f[..|Encode(a)|] == Encode(a);
    FirstZeroAt(f, |Encode(a)|);
    DecodeEncode(a);
  }

  /** A string without U+0000 survives the round trip through native
      memory. */
  lemma RoundTrip(s: string)
    requires '\0' !in s
    ensures Unframe(Frame(s)) == s
  {
    UnframeFrame(s);
  }

  /** The managed object handed to the marshaler. */
  datatype Managed = NullObject | StringObject(s: string) | OtherObject

  class Utf8Marshaler {
    constructor () {}

    /** `MarshalManagedToNative`: the zero pointer for null, a fresh
        framed buffer for a string, an exception for anything else. */
    method MarshalManagedToNative(managedObj: Managed) returns (r: Result<array?<byte>, Error>)
      ensures managedObj.NullObject? ==> r == Success(null)
      ensures managedObj.OtherObject? ==> r == Failure(MarshalDirectiveException(IncompatibleType))
      ensures managedObj.StringObject? ==>
        r.Success? && r.value != null && fresh(r.value) && r.value[..] == Frame(managedObj.s)
    {
      match managedObj
      case NullObject => return Success(null);
      case OtherObject => return Failure(MarshalDirectiveException(IncompatibleType));
      case StringObject(s) =>
        var strbuf := Encode(s);
        var buffer := new byte[|strbuf| + 1];
        var i := 0;
        while i < |strbuf|
          invariant 0 <= i <= |strbuf|
          invariant buffer[..i] == strbuf[..i]
        {
          buffer[i] := strbuf[i];
          i := i + 1;
        }
        buffer[|strbuf|] := 0;
        assert buffer[..] == buffer[..|strbuf|] + [buffer[|strbuf|]];
        r := Success(buffer);
    }

    /** `MarshalNativeToManaged`: walks to the first zero byte and decodes
        the bytes before it; dereferencing the zero pointer throws. */
    method MarshalNativeToManaged(pNativeData: array?<byte>) returns (r: Result<string, Error>)
      requires pNativeData != null ==> 0 in pNativeData[..]
      ensures pNativeData == null ==> r == Failure(NullReferenceException)
      ensures pNativeData != null ==> r == Success(Unframe(pNativeData[..]))
    {
      if pNativeData == null {
        return Failure(NullReferenceException);
      }
      var walk := 0;
      while pNativeData[walk] != 0
        invariant 0 <= walk <= FirstZero(pNativeData[..])
        decreases FirstZero(pNativeData[..]) - walk
      {
        walk := walk + 1;
      }
      var length := walk;
      var strbuf := pNativeData[..length];
      r := Success(Decode(strbuf));
    }
  }

  /** The holder of the static `static_instance` field. */
  class MarshalerStatics {
    var staticInstance: Utf8Marshaler?

    constructor () ensures staticInstance == null {
      staticInstance := null;
    }

    /** `GetInstance(cookie)`: creates the instance on the first call and
        returns that same instance on every later call. */
    method GetInstance(cookie: string) returns (m: Utf8Marshaler)
      modifies this
      ensures old(staticInstance) == null ==> fresh(m)
      ensures old(staticInstance) != null ==> m == old(staticInstance)
      ensures staticInstance == m
    {
      if staticInstance == null {
        m := new Utf8Marshaler();
        staticInstance := m;
        return;
      }
      m := staticInstance;
    }
  }
}
