/** `Any`: type URLs, and packing a message under one. */
module AnyUrl {
  import opened Basics
  import opened RecordParsing
  import opened MessageLite
  import opened LoginResponse

  function GetTypeUrl(name: string, prefix: string): string {
    if prefix != "" && prefix[|prefix| - 1] == '/' then prefix + name else prefix + "/" + name
  }

  /** `find_last_of('/')` */
  function LastSlash(url: string): (pos: Option<nat>)
    ensures pos.Some? ==> pos.value < |url| && url[pos.value] == '/' && '/' !in url[pos.value + 1..]
    ensures pos.None? ==> '/' !in url
  {
    if url == "" then None
    else if url[|url| - 1] == '/' then Some(|url| - 1)
    else
      var front := url[..|url| - 1];
      var pos := LastSlash(front);
      OneMore(url, if pos.Some? then pos.value + 1 else 0);
      pos
  }

  lemma OneMore(url: string, k: nat)
    requires k < |url| && url[|url| - 1] != '/'
    ensures '/' in url[k..] <==> '/' in url[..|url| - 1][k..]
    ensures url[0..] == url && url[..|url| - 1][0..] == url[..|url| - 1]
  {
    assert url[k..] == url[..|url| - 1][k..] + [url[|url| - 1]];
  }

  datatype TypeUrl = TypeUrl(prefix: string, name: string)

  function ParseAnyTypeUrl(url: string): Option<TypeUrl> {
    match LastSlash(url)
    case None => None
    case Some(pos) =>
      if pos + 1 == |url| then None else Some(TypeUrl(url[..pos + 1], url[pos + 1..]))
  }

  /** The suffix test, which never looks for the last slash. */
  predicate InternalIs(url: string, name: string) {
    && |url| >= |name| + 1
    && url[|url| - |name| - 1] == '/'
    && url[|url| - |name|..] == name
  }

  predicate Plain(name: string) {
    name != "" && '/' !in name
  }

  predicate ParsesAs(url: string, name: string) {
    ParseAnyTypeUrl(url).Some? && ParseAnyTypeUrl(url).value.name == name
  }

  lemma SlashAt(s: string, i: nat)
    requires i < |s| && s[i] == '/'
    ensures '/' in s
  {
  }

  /** The last slash of `p + "/" + name` is the one before a slash-free name. */
  lemma LastSlashOfParts(p: string, name: string)
    requires '/' !in name
    ensures LastSlash(p + "/" + name) == Some(|p|)
  {
    SlashAt(p + "/" + name, |p|);
  }

  lemma ParseParts(p: string, name: string)
    requires Plain(name)
    ensures ParseAnyTypeUrl(p + "/" + name) == Some(TypeUrl(p + "/", name))
  {
    LastSlashOfParts(p, name);
    var url := p + "/" + name;
    assert url[..|p| + 1] == p + "/" && url[|p| + 1..] == name;
  }

  lemma SplitSuffix(url: string, name: string)
    requires InternalIs(url, name)
    ensures url == url[..|url| - |name| - 1] + "/" + name
  {
  }

  lemma ParsedIsPlain(url: string)
    requires ParseAnyTypeUrl(url).Some?
    ensures Plain(ParseAnyTypeUrl(url).value.name)
    ensures InternalIs(url, ParseAnyTypeUrl(url).value.name)
  {
  }

  /**
   The suffix test and the last-slash split agree on every URL exactly for the names that are
   non-empty and contain no slash.
   */
  lemma SuffixTestIsSplit(name: string)
    ensures (forall url :: InternalIs(url, name) <==> ParsesAs(url, name)) <==> Plain(name)
  {
    if Plain(name) {
      forall url
        ensures InternalIs(url, name) <==> ParsesAs(url, name)
      {
        if InternalIs(url, name) {
          SplitSuffix(url, name);
          ParseParts(url[..|url| - |name| - 1], name);
        } else if ParsesAs(url, name) {
          ParsedIsPlain(url);
        }
      }
    } else {
      var url := "/" + name;
      assert InternalIs(url, name);
      if ParsesAs(url, name) {
        ParsedIsPlain(url);
      }
    }
  }

  function WithSlash(prefix: string): string {
    if prefix != "" && prefix[|prefix| - 1] == '/' then prefix else prefix + "/"
  }

  /** Splitting a built URL gives the name back, and the prefix with exactly one separator added if needed. */
  lemma ParseBuilt(name: string, prefix: string)
    requires Plain(name)
    ensures GetTypeUrl(name, prefix) == WithSlash(prefix) + name
    ensures ParseAnyTypeUrl(GetTypeUrl(name, prefix)) == Some(TypeUrl(WithSlash(prefix), name))
  {
    if prefix != "" && prefix[|prefix| - 1] == '/' {
      var p := prefix[..|prefix| - 1];
      assert prefix == p + "/";
      ParseParts(p, name);
    } else {
      ParseParts(prefix, name);
    }
  }

  /** A trailing slash may be left off a prefix exactly when the prefix does not end in one. */
  lemma OptionalSlash(name: string, prefix: string)
    ensures GetTypeUrl(name, prefix) == GetTypeUrl(name, prefix + "/")
            <==> prefix == "" || prefix[|prefix| - 1] != '/'
  {
    assert (prefix + "/")[|prefix|] == '/';
    if prefix != "" && prefix[|prefix| - 1] == '/' {
      assert |prefix + name| != |prefix + "/" + name|;
    }
  }

  /** A URL built for one name is of another name only if the names are the same. */
  lemma BuiltIs(name: string, prefix: string, other: string)
    requires Plain(name) && Plain(other)
    ensures InternalIs(GetTypeUrl(name, prefix), other) <==> name == other
  {
    SuffixTestIsSplit(other);
    ParseBuilt(name, prefix);
    var url := GetTypeUrl(name, prefix);
    assert InternalIs(url, other) <==> ParsesAs(url, other);
  }

  lemma FullNamesPlain(k: Kind)
    ensures Plain(FullName(k))
  {
  }

  lemma FullNamesDiffer(k: Kind, l: Kind)
    ensures FullName(k) == FullName(l) <==> k == l
  {
    assert |FullName(BoolKind)| == 25 && |FullName(FriendKind)| == 19;
    assert |FullName(LoginKind)| == 26 && |FullName(FindKind)| == 31;
  }

  datatype AnyVal = AnyVal(typeUrl: string, value: seq<byte>)

  /** What `PackFrom` leaves behind; the URL is set even when serialising is refused. */
  function Packed(m: Message, prefix: string): AnyVal {
    AnyVal(GetTypeUrl(FullName(KindOf(m)), prefix), SerializeToString(m).GetOr([]))
  }

  function Unpacked(any: AnyVal, k: Kind): Outcome<Message> {
    if InternalIs(any.typeUrl, FullName(k)) then ParseFromString(k, any.value) else Failure
  }

  /** Pack, then unpack: the same message comes back into its own type, whatever the prefix. */
  lemma PackThenUnpack(m: Message, prefix: string)
    requires SerializeToString(m).Some?
    ensures Unpacked(Packed(m, prefix), KindOf(m)) == Success(m) <==> Readable(m)
  {
    hide SerializeToString, ParseFromString;
    FullNamesPlain(KindOf(m));
    BuiltIs(FullName(KindOf(m)), prefix, FullName(KindOf(m)));
    SerializeThenParse(m);
  }

  /** A packed message is taken for its own type and no other; into any other, unpacking fails. */
  lemma UnpackOther(m: Message, prefix: string, k: Kind)
    ensures InternalIs(Packed(m, prefix).typeUrl, FullName(k)) <==> k == KindOf(m)
    ensures k != KindOf(m) ==> Unpacked(Packed(m, prefix), k) == Failure
  {
    hide SerializeToString, ParseFromString;
    FullNamesPlain(k);
    FullNamesPlain(KindOf(m));
    FullNamesDiffer(k, KindOf(m));
    BuiltIs(FullName(KindOf(m)), prefix, FullName(k));
  }

  /** Whatever the URL: it unpacks exactly if it ends in a slash and the name and the bytes are accepted. */
  lemma UnpackedExact(any: AnyVal, k: Kind)
    ensures Unpacked(any, k).Success?
       <==> (exists p :: any.typeUrl == p + ("/" + FullName(k))) && ParseFromString(k, any.value).Success?
    ensures Unpacked(any, k).Success? ==> Unpacked(any, k) == ParseFromString(k, any.value)
  {
    hide ParseFromString, FullName;
    var url, name := any.typeUrl, FullName(k);
    if InternalIs(url, name) {
      SplitSuffix(url, name);
      Assoc3(url[..|url| - |name| - 1], "/", name);
    }
    forall p | url == p + ("/" + name) ensures InternalIs(url, name) {
      assert url[|p|] == '/' && url[|p| + 1..] == name;
    }
  }

  /** The URL of each type, under a prefix written with or without its slash. */
  lemma PackedUrl(m: Message, prefix: string)
    requires prefix == "" || prefix[|prefix| - 1] != '/'
    ensures Packed(m, prefix).typeUrl == Packed(m, prefix + "/").typeUrl
         == prefix + "/" + match m
                           case BoolMessage(_) => "google.protobuf.BoolValue"
                           case FriendMessage(_) => "Protocol.FriendInfo"
                           case LoginMessage(_) => "Protocol.S2C_LoginResponse"
                           case FindMessage(_) => "Protocol.S2C_FindFriendResponse"
  {
    hide SerializeToString;
    OptionalSlash(FullName(KindOf(m)), prefix);
  }

  /** What is packed is the serialisation, and nothing when that is refused. */
  lemma PackedValue(m: Message, prefix: string)
    requires Typed(m)
    ensures Packed(m, prefix).value == if |Serialize(m)| <= 0x7FFF_FFFF then Serialize(m) else []
  {
    hide SerializeToString, Serialize, Typed;
    SerializeToStringExact(m);
  }

  class AnyMetadata {
    var typeUrl: string
    var value: seq<byte>

    function View(): AnyVal
      reads this
    {
      AnyVal(typeUrl, value)
    }

    constructor ()
      ensures View() == AnyVal("", [])
    {
      typeUrl, value := "", [];
    }

    method PackFrom(m: Message, prefix: string) returns (ok: bool)
      modifies this
      ensures View() == Packed(m, prefix) && (ok <==> SerializeToString(m).Some?)
    {
      typeUrl := GetTypeUrl(FullName(KindOf(m)), prefix);
      value := [];
      var size := ByteSizeLong(m);
      ok := size <= INT_MAX;
      if ok {
        value := Serialize(m);
      }
    }

    /** Refused on the type alone, the target is untouched; otherwise it is parsed into. */
    method UnpackTo(msg: S2C_LoginResponse) returns (ok: bool)
      requires msg.Valid()
      modifies msg, msg.success
      ensures msg.Valid()
      ensures ok <==> Unpacked(View(), LoginKind).Success?
      ensures ok ==> Unpacked(View(), LoginKind) == Success(LoginMessage(msg.View()))
      ensures !InternalIs(typeUrl, FullName(LoginKind)) ==>
                && !ok && msg.View() == old(msg.View())
                && unchanged(msg) && (msg.success != null ==> unchanged(msg.success))
    {
      hide ParseInto;
      if !InternalIs(typeUrl, FullName(LoginKind)) {
        return false;
      }
      ok := msg.ParseFromString(value);
    }
  }
}
