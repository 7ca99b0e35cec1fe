/**
 * `Configurations::load_file`: fills every empty field of the loaded
 * configuration with a default, normalises the password into an AES-256
 * key, and reports whether anything changed so the file is rewritten.
 *
 * The file itself (read, created when missing, written back) is outside the
 * model: `LoadFile` starts from the deserialised configuration. The fresh
 * uuids, the SHA-1 digest, the host name and the OS name come in as `Env`.
 */
module Settings {
  import opened Wrappers
  import opened Utf8
  import opened Records
  import Envelope

  const AgentConfigPath: string := "agent.json"
  const ClientConfigPath: string := "client.json"

  function ConfigPath(isAgent: bool): string {
    if isAgent then AgentConfigPath else ClientConfigPath
  }

  /** `(is_udp, host, port)` of a STUN server. */
  datatype StunServer = StunServer(isUdp: bool, host: string, port: Port)

  const DefaultStunServer: StunServer := StunServer(true, "stun.l.google.com", 19302)

  datatype Configurations = Configurations(
    password: string,
    uuid: string,
    name: string,
    os: string,
    stunServerUrls: seq<StunServer>,
    signalServerUrl: string,
    publishAgentUrl: string,
    queryAgentUrl: string,
    deleteAgentUrl: string,
    publishClientSdpUrl: string,
    queryClientSdpUrl: string,
    deleteClientSdpUrl: string,
    publishAgentSdpUrl: string,
    queryAgentSdpUrl: string,
    deleteAgentSdpUrl: string)

  type Digest = s: seq<byte> | |s| == 20 witness seq(20, _ => 0)

  /**
   * What the process environment supplies: the SHA-1 digest of one fresh
   * uuid (the generated password), another fresh uuid (the identity), the
   * host name (empty when it cannot be read) and the OS name.
   */
  datatype Env = Env(digest: Digest, freshUuid: string, hostname: string, os: string)

  /** Every default the environment supplies is non-empty. */
  predicate Filled(env: Env) {
    env.freshUuid != "" && env.hostname != "" && env.os != ""
  }

  // ----- Hex digest -----

  function HexDigit(d: nat): (c: char)
    requires d < 16
    ensures c as int < 0x80
  {
    if d < 10 then ('0' as int + d) as char else ('a' as int + d - 10) as char
  }

  /** `format!("{:x}", digest)`: two lower-case hex digits per byte. */
  function Hex(bs: seq<byte>): (r: string)
    ensures |r| == 2 * |bs|
    ensures forall i :: 0 <= i < |r| ==> r[i] as int < 0x80
    ensures forall i :: 0 <= i < |bs| ==> r[2 * i] == HexDigit(bs[i] / 16) && r[2 * i + 1] == HexDigit(bs[i] % 16)
  {
    if bs == [] then []
    else
      var rest := Hex(bs[1..]);
      var r := [HexDigit(bs[0] / 16), HexDigit(bs[0] % 16)] + rest;
      forall i | 1 <= i < |bs|
        ensures r[2 * i] == HexDigit(bs[i] / 16) && r[2 * i + 1] == HexDigit(bs[i] % 16)
      {
        var j := i - 1;
        assert bs[i] == bs[1..][j];
        assert r[2 * i] == rest[2 * j] && r[2 * i + 1] == rest[2 * j + 1];
      }
      r
  }

  // ----- Defaults -----

  /** The string fields that default when empty, in declaration order. */
  function Fields(c: Configurations): seq<string> {
    [c.uuid, c.name, c.os,
     c.publishAgentUrl, c.queryAgentUrl, c.deleteAgentUrl,
     c.publishClientSdpUrl, c.queryClientSdpUrl, c.deleteClientSdpUrl,
     c.publishAgentSdpUrl, c.queryAgentSdpUrl, c.deleteAgentSdpUrl]
  }

  /** The default of each entry of `Fields`. */
  function DefaultFields(env: Env): seq<string> {
    [env.freshUuid, env.hostname, env.os,
     "/publish/agent", "/query/agent", "/delete/agent",
     "/publish/client/sdp", "/query/client/sdp", "/delete/client/sdp",
     "/publish/agent/sdp", "/query/agent/sdp", "/delete/agent/sdp"]
  }

  predicate NeedsDefaults(c: Configurations) {
    c.stunServerUrls == [] || exists i :: 0 <= i < |Fields(c)| && Fields(c)[i] == ""
  }

  function OrDefault(v: string, d: string): string {
    if v == "" then d else v
  }

  /** Each value, or its default where the value is empty. */
  function Merge(vs: seq<string>, ds: seq<string>): (r: seq<string>)
    requires |vs| == |ds|
    ensures |r| == |vs|
    ensures forall i :: 0 <= i < |vs| ==> r[i] == (if vs[i] == "" then ds[i] else vs[i])
  {
    if vs == [] then [] else [OrDefault(vs[0], ds[0])] + Merge(vs[1..], ds[1..])
  }

  /**
   * Every field except the password after defaulting: an empty field gets
   * its default, a non-empty one is kept, and the signalling server URL is
   * only reported when empty, never filled.
   */
  function ApplyDefaults(c: Configurations, env: Env): (r: Configurations)
    ensures Fields(r) == Merge(Fields(c), DefaultFields(env))
    ensures r.stunServerUrls == (if c.stunServerUrls == [] then [DefaultStunServer] else c.stunServerUrls)
    ensures r.password == c.password && r.signalServerUrl == c.signalServerUrl
  {
    var m := Merge(Fields(c), DefaultFields(env));
    var r := WithFields(c, m).(stunServerUrls :=
      if c.stunServerUrls == [] then [DefaultStunServer] else c.stunServerUrls);
    FieldsOfWithFields(c, m);
    r
  }

  /** `c` with the defaulting string fields replaced by `m`, in `Fields` order. */
  function WithFields(c: Configurations, m: seq<string>): Configurations
    requires |m| == 12
  {
    c.(uuid := m[0], name := m[1], os := m[2],
       publishAgentUrl := m[3], queryAgentUrl := m[4], deleteAgentUrl := m[5],
       publishClientSdpUrl := m[6], queryClientSdpUrl := m[7], deleteClientSdpUrl := m[8],
       publishAgentSdpUrl := m[9], queryAgentSdpUrl := m[10], deleteAgentSdpUrl := m[11])
  }

  lemma FieldsOfWithFields(c: Configurations, m: seq<string>)
    requires |m| == 12
    ensures Fields(WithFields(c, m)) == m
  {
    var f := Fields(WithFields(c, m));
    assert |f| == 12;
    forall i | 0 <= i < 12 ensures f[i] == m[i] {
    }
  }

  /** A configuration with nothing left to default is left alone. */
  lemma ApplyDefaultsKeepsComplete(c: Configurations, env: Env)
    requires !NeedsDefaults(c)
    ensures ApplyDefaults(c, env) == c
  {
    assert forall i :: 0 <= i < |Fields(c)| ==> Fields(c)[i] != "";
    assert Fields(c)[0] != "" && Fields(c)[1] != "" && Fields(c)[2] != "";
    assert Fields(c)[3] != "" && Fields(c)[4] != "" && Fields(c)[5] != "";
    assert Fields(c)[6] != "" && Fields(c)[7] != "" && Fields(c)[8] != "";
    assert Fields(c)[9] != "" && Fields(c)[10] != "" && Fields(c)[11] != "";
  }

  /** With a filled environment, one round of defaults leaves nothing empty. */
  lemma ApplyDefaultsCompletes(c: Configurations, env: Env)
    requires Filled(env)
    ensures !NeedsDefaults(ApplyDefaults(c, env))
  {
    var r := ApplyDefaults(c, env);
    var m := Merge(Fields(c), DefaultFields(env));
    DefaultsNonEmpty(env);
    assert Fields(r) == m;
    assert r.stunServerUrls != [];
    forall i | 0 <= i < |Fields(r)|
      ensures Fields(r)[i] != ""
    {
      assert m[i] != "";
    }
  }

  lemma DefaultsNonEmpty(env: Env)
    requires Filled(env)
    ensures forall i :: 0 <= i < |DefaultFields(env)| ==> DefaultFields(env)[i] != ""
  {
    var d := DefaultFields(env);
    assert |d| == 12;
    forall i | 0 <= i < 12 ensures d[i] != "" {
      if i >= 3 {
        assert |d[i]| > 0;
      }
    }
  }

  /** `a` and `b` agree on every field except possibly the password. */
  predicate SameButPassword(a: Configurations, b: Configurations) {
    Fields(a) == Fields(b) && a.stunServerUrls == b.stunServerUrls
      && a.signalServerUrl == b.signalServerUrl
  }

  /** The configuration after loading, and whether it must be written back. */
  datatype Loaded = Loaded(config: Configurations, update: bool)

  /** `config.password[..32]` cut a multi-byte character. */
  datatype LoadError = NotCharBoundary

  /** The password before any length rule: the stored one, or the digest's hex. */
  function RawPassword(c: Configurations, env: Env): string {
    if c.password == "" then Hex(env.digest) else c.password
  }

  /**
   * The password rules as the code has them: an over-long password is cut
   * at byte 32, which panics inside a multi-byte character, and a short one
   * is kept as it is.
   */
  function LoadFileAsWritten(c: Configurations, env: Env): (r: Result<Loaded, LoadError>)
    ensures r.Err? <==> (ByteLen(RawPassword(c, env)) > Envelope.KeySize
      && PrefixBytes(RawPassword(c, env), Envelope.KeySize).None?)
    ensures r.Ok? ==> SameButPassword(r.value.config, ApplyDefaults(c, env))
    ensures r.Ok? ==> (ByteLen(r.value.config.password) == Envelope.KeySize
      || (c.password != "" && r.value.config.password == c.password))
    ensures r.Ok? ==> (r.value.config.password ==
      if ByteLen(RawPassword(c, env)) > Envelope.KeySize
      then PrefixBytes(RawPassword(c, env), Envelope.KeySize).value
      else RawPassword(c, env))
  {
    var raw := RawPassword(c, env);
    AsciiByteLen(Hex(env.digest));
    var cut := ByteLen(raw) > Envelope.KeySize;
    var password := if cut then PrefixBytes(raw, Envelope.KeySize) else Some(raw);
    match password
    case None => Err(NotCharBoundary)
    case Some(p) =>
      Ok(Loaded(ApplyDefaults(c, env).(password := p),
                c.password == "" || cut || NeedsDefaults(c)))
  }

  // ----- The corrected password rule -----

  /**
   * A 32-byte key from any password: cut back to the last character
   * boundary within 32 bytes, then pad with '0' up to 32 bytes.
   */
  function FitKey(p: string): (r: string)
    ensures ByteLen(r) == Envelope.KeySize
    ensures TruncateBytes(p, Envelope.KeySize) <= r
    ensures forall i :: |TruncateBytes(p, Envelope.KeySize)| <= i < |r| ==> r[i] == '0'
    ensures ByteLen(p) == Envelope.KeySize ==> r == p
  {
    var t := TruncateBytes(p, Envelope.KeySize);
    var pad := seq(Envelope.KeySize - ByteLen(t), _ => '0');
    ByteLenAppend(t, pad);
    AsciiByteLen(pad);
    assert t + [] == t;
    t + pad
  }

  /**
   * `load_file` with the password always made a valid key. `update` is set
   * exactly when the password changed or some field needed its default.
   */
  function LoadFile(c: Configurations, env: Env): (r: Loaded)
    ensures SameButPassword(r.config, ApplyDefaults(c, env))
    ensures Envelope.New(r.config.password).Some?
    ensures ByteLen(c.password) == Envelope.KeySize ==> r.config.password == c.password
    ensures r.update <==> r.config.password != c.password || NeedsDefaults(c)
    ensures r.config.password == FitKey(RawPassword(c, env))
  {
    var p := FitKey(RawPassword(c, env));
    Loaded(ApplyDefaults(c, env).(password := p), p != c.password || NeedsDefaults(c))
  }

  // ----- Properties of the corrected load -----

  /** Loading again what a load produced changes nothing and asks for no write. */
  lemma LoadFileIdempotent(c: Configurations, env: Env, env': Env)
    requires Filled(env)
    ensures LoadFile(LoadFile(c, env).config, env') == Loaded(LoadFile(c, env).config, false)
  {
    var r := LoadFile(c, env).config;
    assert r.password != "";
    ApplyDefaultsCompletes(c, env);
    assert Fields(r) == Fields(ApplyDefaults(c, env));
    ApplyDefaultsKeepsComplete(r, env');
  }

  /** With a filled environment the file is rewritten exactly when the configuration changed. */
  lemma UpdateIffChanged(c: Configurations, env: Env)
    requires Filled(env)
    ensures LoadFile(c, env).update <==> LoadFile(c, env).config != c
  {
    if NeedsDefaults(c) {
      DefaultsChange(c, env);
    } else {
      ApplyDefaultsKeepsComplete(c, env);
    }
  }

  lemma DefaultsChange(c: Configurations, env: Env)
    requires Filled(env) && NeedsDefaults(c)
    ensures !SameButPassword(ApplyDefaults(c, env), c)
  {
    if c.stunServerUrls != [] {
      var i :| 0 <= i < |Fields(c)| && Fields(c)[i] == "";
      ApplyDefaultsCompletes(c, env);
      assert Fields(ApplyDefaults(c, env))[i] != Fields(c)[i];
    }
  }

  /** An empty password becomes the first 32 hex digits of the digest. */
  lemma EmptyPasswordUsesDigest(c: Configurations, env: Env)
    requires c.password == ""
    ensures LoadFile(c, env).config.password == Hex(env.digest)[..Envelope.KeySize]
    ensures LoadFileAsWritten(c, env).Ok?
      && LoadFileAsWritten(c, env).value == LoadFile(c, env)
  {
    var h := Hex(env.digest);
    AsciiTruncate(h, Envelope.KeySize);
    AsciiByteLen(h);
    AsciiByteLen(h[..Envelope.KeySize]);
    PrefixBytesIsTruncate(h, Envelope.KeySize);
  }

  /**
   * Wherever the code as written yields a usable key, the corrected load
   * yields the same configuration and the same `update`.
   */
  lemma AsWrittenAgreesWhenKeyFits(c: Configurations, env: Env)
    requires LoadFileAsWritten(c, env).Ok?
    requires ByteLen(LoadFileAsWritten(c, env).value.config.password) == Envelope.KeySize
    ensures LoadFileAsWritten(c, env).value == LoadFile(c, env)
  {
    var raw := RawPassword(c, env);
    if ByteLen(raw) > Envelope.KeySize {
      PrefixBytesIsTruncate(raw, Envelope.KeySize);
    }
  }

  // ----- The password rule as written -----

  /**
   * A stored password shorter than 32 bytes loads without complaint, and
   * then cannot make an AES-256 key: `AesEncryption::new` panics on it.
   */
  lemma ShortPasswordBreaksKey(c: Configurations, env: Env)
    requires 0 < ByteLen(c.password) < Envelope.KeySize
    ensures LoadFileAsWritten(c, env).Ok?
    ensures LoadFileAsWritten(c, env).value.config.password == c.password
    ensures Envelope.New(LoadFileAsWritten(c, env).value.config.password).None?
    ensures Envelope.New(LoadFile(c, env).config.password).Some?
  {
  }

  /**
   * As written, a complete configuration whose password is non-empty and at
   * most 32 bytes is returned as it is and not rewritten.
   */
  lemma AsWrittenKeepsComplete(c: Configurations, env: Env)
    requires !NeedsDefaults(c) && 0 < ByteLen(c.password) <= Envelope.KeySize
    ensures LoadFileAsWritten(c, env) == Ok(Loaded(c, false))
  {
    ApplyDefaultsKeepsComplete(c, env);
    assert c.password != "";
  }

  /**
   * As written, with a filled environment, the file is rewritten exactly
   * when loading changed the configuration.
   */
  lemma AsWrittenUpdateIffChanged(c: Configurations, env: Env)
    requires Filled(env) && LoadFileAsWritten(c, env).Ok?
    ensures LoadFileAsWritten(c, env).value.update <==> LoadFileAsWritten(c, env).value.config != c
  {
    var raw := RawPassword(c, env);
    AsciiByteLen(Hex(env.digest));
    if NeedsDefaults(c) {
      DefaultsChange(c, env);
    } else {
      ApplyDefaultsKeepsComplete(c, env);
      if ByteLen(raw) > Envelope.KeySize {
        var p := LoadFileAsWritten(c, env).value.config.password;
        assert ByteLen(p) == Envelope.KeySize;
      }
    }
  }

  /** Thirty-one 'a's followed by 'é' (two bytes): byte 32 falls inside the 'é'. */
  const MidCharPassword: string := seq(31, _ => 'a') + "\U{e9}"

  lemma MidCharCutPanics(c: Configurations, env: Env)
    requires c.password == MidCharPassword
    ensures LoadFileAsWritten(c, env) == Err(NotCharBoundary)
    ensures ByteLen(LoadFile(c, env).config.password) == Envelope.KeySize
  {
    var s := MidCharPassword;
    var a := seq(31, _ => 'a');
    ByteLenAppend(a, "\U{e9}");
    AsciiByteLen(a);
    assert ByteLen(s) == 33;
    forall k | 0 <= k <= |s|
      ensures ByteLen(s[..k]) != Envelope.KeySize
    {
      if k <= 31 {
        assert s[..k] == a[..k];
        AsciiByteLen(a[..k]);
      } else {
        assert s[..k] == s;
      }
    }
  }
}
