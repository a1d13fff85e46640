/**
 * The command dispatcher of the signaling task: it reads the `command` string of a
 * request document (defaulting to "unknown"), hashes it with a polynomial string
 * hash, and switches on the hash. "ping" and "get_water_level" each publish one
 * response on channel 254; anything else publishes nothing. The current
 * `millis()` reading is a parameter.
 */
module Signaling {
  import opened Wrappers
  import opened JsonDoc
  import opened SerialIo

  /** The width of `unsigned long long`: the hash wraps modulo 2^64. */
  const Pow64: nat := 0x1_0000_0000_0000_0000

  /**
   * `hash_str`: fold `h * 31 + c` over the characters of a C string, wrapping at
   * 2^64 and stopping at the first NUL. A character counts as its code, which is the
   * firmware's `char` value for the ASCII command names.
   */
  function HashStr(s: string, h: nat): (r: nat)
    requires h < Pow64
    ensures r < Pow64
  {
    if s == [] || s[0] == '\0' then h else HashStr(s[1..], (h * 31 + s[0] as int) % Pow64)
  }

  /** The hash of a concatenation continues from the hash of its first part, when that part has no NUL. */
  lemma {:induction false} HashAppend(s: string, t: string, h: nat)
    requires h < Pow64
    requires '\0' !in s
    ensures HashStr(s + t, h) == HashStr(t, HashStr(s, h))
  {
    if s == [] {
      assert s + t == t;
    } else {
      assert s[0] in s;
      assert (s + t)[0] == s[0] && (s + t)[1..] == s[1..] + t;
      HashAppend(s[1..], t, (h * 31 + s[0] as int) % Pow64);
    }
  }

  /** Everything from the first NUL on is ignored. */
  lemma {:induction false} HashStopsAtNul(s: string, t: string, h: nat)
    requires h < Pow64
    requires '\0' !in s
    ensures HashStr(s + ['\0'] + t, h) == HashStr(s, h)
  {
    HashAppend(s, ['\0'] + t, h);
    assert s + ['\0'] + t == s + (['\0'] + t);
  }

  /** The response channel of the signaling task. */
  const ResponseChannel: int := 254

  const PingHash: nat := HashStr("ping", 0)
  const WaterLevelHash: nat := HashStr("get_water_level", 0)

  /** The hash of "ping". */
  lemma PingValue()
    ensures HashStr("ping", 0) == 3441010
  {
    assert HashStr("g", 110997) == 3441010;
    assert HashStr("ng", 3577) == 3441010;
    assert HashStr("ing", 112) == 3441010;
  }

  /** Hashing "get_water_level" from its character 12 on. */
  lemma WaterLevelFrom12()
    ensures HashStr("vel", 2703006961640637546) == 5242512494040445683
  {
    assert HashStr("l", 15045519817315459225) == 5242512494040445683;
    assert HashStr("el", 10006239516021557580) == 5242512494040445683;
  }

  /** Hashing "get_water_level" from its character 9 on. */
  lemma WaterLevelFrom9()
    ensures HashStr("_level", 90732333981422) == 5242512494040445683
  {
    WaterLevelFrom12();
    assert HashStr("evel", 87193772956149595) == 5242512494040445683;
    assert HashStr("level", 2812702353424177) == 5242512494040445683;
  }

  /** Hashing "get_water_level" from its character 6 on. */
  lemma WaterLevelFrom6()
    ensures HashStr("ter_level", 3045629011) == 5242512494040445683
  {
    WaterLevelFrom9();
    assert HashStr("r_level", 2926849483268) == 5242512494040445683;
    assert HashStr("er_level", 94414499457) == 5242512494040445683;
  }

  /** Hashing "get_water_level" from its character 3 on. */
  lemma WaterLevelFrom3()
    ensures HashStr("_water_level", 102230) == 5242512494040445683
  {
    WaterLevelFrom6();
    assert HashStr("ater_level", 98246094) == 5242512494040445683;
    assert HashStr("water_level", 3169225) == 5242512494040445683;
  }

  /** The hash of "get_water_level". */
  lemma WaterLevelValue()
    ensures HashStr("get_water_level", 0) == 5242512494040445683
  {
    WaterLevelFrom3();
    assert HashStr("t_water_level", 3294) == 5242512494040445683;
    assert HashStr("et_water_level", 103) == 5242512494040445683;
  }

  /** The hash of "unknown". */
  lemma UnknownValue()
    ensures HashStr("unknown", 0) == 107089341514
  {
    assert HashStr("n", 3454494884) == 107089341514;
    assert HashStr("wn", 111435315) == 107089341514;
    assert HashStr("own", 3594684) == 107089341514;
    assert HashStr("nown", 115954) == 107089341514;
    assert HashStr("known", 3737) == 107089341514;
    assert HashStr("nknown", 117) == 107089341514;
  }

  /** The hash of "pioH". */
  lemma PioHValue()
    ensures HashStr("pioH", 0) == 3441010
  {
    assert HashStr("H", 110998) == 3441010;
    assert HashStr("oH", 3577) == 3441010;
    assert HashStr("ioH", 112) == 3441010;
  }

  /** The two case labels of the switch have the values below, so they are distinct. */
  lemma CaseLabels()
    ensures PingHash == 3441010
    ensures WaterLevelHash == 5242512494040445683
    ensures PingHash != WaterLevelHash
  {
    PingValue();
    WaterLevelValue();
  }

  /**
   * `(*doc)["command"] | "unknown"`: the command string when the request has one,
   * and "unknown" when the member is missing or is not a string.
   */
  function CommandOf(request: Doc): (r: string)
    ensures (exists t :: Get(request, "command") == Some(Str(t))) ==> Get(request, "command") == Some(Str(r))
    ensures (forall t :: Get(request, "command") != Some(Str(t))) ==> r == "unknown"
  {
    StringOr(request, "command", "unknown")
  }

  /** `getHighWater`: its body is commented out, so it leaves the document as it is. */
  function GetHighWater(d: Doc): (r: Doc)
    ensures r == d
  {
    d
  }

  /** The answer to "ping": msg "pong", status 200 and the time, in that order. */
  function PingResponse(millis: nat): (r: Doc)
    ensures r.members == [("msg", Str("pong")), ("status", Int(200)), ("timestamp", Int(millis))]
  {
    PongStatus();
    var d := Set(Set(Empty, "msg", Str("pong")), "status", Int(200));
    assert Keys(d.members) == ["msg", "status"];
    Set(d, "timestamp", Int(millis))
  }

  lemma PongStatus()
    ensures Set(Set(Empty, "msg", Str("pong")), "status", Int(200)).members == [("msg", Str("pong")), ("status", Int(200))]
  {
    var d1 := Set(Empty, "msg", Str("pong"));
    assert d1.members == [("msg", Str("pong"))];
    assert Keys(d1.members) == ["msg"];
  }

  /** The answer to "get_water_level": the unchanged empty document plus status 200 and the time. */
  function WaterLevelResponse(millis: nat): (r: Doc)
    ensures r.members == [("status", Int(200)), ("timestamp", Int(millis))]
  {
    var d := Set(GetHighWater(Empty), "status", Int(200));
    assert d.members == [("status", Int(200))];
    assert Keys(d.members) == ["status"];
    Set(d, "timestamp", Int(millis))
  }

  /** A response document and the channel it is published on. */
  datatype Reply = Reply(channel: int, doc: Doc)

  /** The switch on the command's hash: the reply to publish, if any. */
  function Respond(command: string, millis: nat): (r: Option<Reply>)
    ensures r.Some? <==> HashStr(command, 0) in {PingHash, WaterLevelHash}
    ensures r.Some? ==> r.value.channel == ResponseChannel
  {
    var h := HashStr(command, 0);
    if h == PingHash then Some(Reply(ResponseChannel, PingResponse(millis)))
    else if h == WaterLevelHash then Some(Reply(ResponseChannel, WaterLevelResponse(millis)))
    else None
  }

  /** "ping" is answered on channel 254 with msg "pong", status 200 and the time, and nothing else. */
  lemma PingReply(millis: nat)
    ensures Respond("ping", millis) == Some(Reply(254, PingResponse(millis)))
    ensures PingResponse(millis).members == [("msg", Str("pong")), ("status", Int(200)), ("timestamp", Int(millis))]
  {
    CaseLabels();
  }

  /** "get_water_level" is answered on channel 254 with only status 200 and the time. */
  lemma WaterLevelReply(millis: nat)
    ensures Respond("get_water_level", millis) == Some(Reply(254, WaterLevelResponse(millis)))
    ensures WaterLevelResponse(millis).members == [("status", Int(200)), ("timestamp", Int(millis))]
  {
    CaseLabels();
  }

  /** A request without a `command` string is treated as "unknown", which matches no case. */
  lemma MissingCommandIgnored(request: Doc, millis: nat)
    requires forall t :: Get(request, "command") != Some(Str(t))
    ensures CommandOf(request) == "unknown"
    ensures Respond(CommandOf(request), millis) == None
  {
    CaseLabels();
    UnknownValue();
  }

  /** The host test script's request `{'cmd': 'ping'}` names its field `cmd`, so it is not answered. */
  lemma HostPingIgnored(millis: nat)
    ensures CommandOf(Doc([("cmd", Str("ping"))])) == "unknown"
    ensures Respond(CommandOf(Doc([("cmd", Str("ping"))])), millis) == None
  {
    MissingCommandIgnored(Doc([("cmd", Str("ping"))]), millis);
  }

  /** The reply depends on the command only through its hash. */
  lemma ReplyByHash(a: string, b: string, millis: nat)
    requires HashStr(a, 0) == HashStr(b, 0)
    ensures Respond(a, millis) == Respond(b, millis)
  {
  }

  /** A different command with the hash of "ping", such as "pioH", gets the "pong" reply. */
  lemma PingCollision(millis: nat)
    ensures "pioH" != "ping"
    ensures Respond("pioH", millis) == Respond("ping", millis)
  {
    PioHValue();
    CaseLabels();
  }

  /** Serve one request: publish the reply for its command through `io`, if there is one. */
  method HandleRequest(io: SerialIO, request: Doc, millis: nat)
    modifies io
    ensures io.output == old(io.output) +
      match Respond(CommandOf(request), millis)
      case Some(r) => Frame(io.codec, r.channel, r.doc)
      case None => []
    ensures io.callbacks == old(io.callbacks) && io.buffer == old(io.buffer) && io.events == old(io.events)
  {
    var command := CommandOf(request);
    var h := HashStr(command, 0);
    if h == PingHash {
      var response := Set(Empty, "msg", Str("pong"));
      response := Set(response, "status", Int(200));
      response := Set(response, "timestamp", Int(millis));
      io.Publish(ResponseChannel, response);
    } else if h == WaterLevelHash {
      var response := GetHighWater(Empty);
      response := Set(response, "status", Int(200));
      response := Set(response, "timestamp", Int(millis));
      io.Publish(ResponseChannel, response);
    } else {
      assert io.output + [] == io.output;
    }
  }
}
