/** ParseIPMask (plugins/inputs/smnet/smnet.go): the address and dotted-
    decimal netmask of the first address of an interface whose text holds a
    '.'. The parsing of the CIDR text itself (net.ParseCIDR) is an input: each
    address carries the mask bytes it parses to. */
module IPMask {
  import opened Wrappers
  import opened Text

  newtype byte = x: int | 0 <= x < 256

  /** One interface address as `Addrs()` lists it: its text ("a.b.c.d/n")
      and the mask bytes net.ParseCIDR yields for it, absent when the text
      does not parse. */
  datatype Addr = Addr(text: string, mask: Option<seq<byte>>)

  /** IPStatus; the zero value is two empty strings. */
  datatype IPStatus = IPStatus(ip: string, mask: string)

  /** The position of the first address whose text holds a '.'. */
  function FirstDotted(addrs: seq<Addr>): (k: Option<nat>)
    ensures k.None? ==> forall i :: 0 <= i < |addrs| ==> '.' !in addrs[i].text
    ensures k.Some? ==> k.value < |addrs| && '.' in addrs[k.value].text
    ensures k.Some? ==> forall i :: 0 <= i < k.value ==> '.' !in addrs[i].text
    decreases |addrs|
  {
    if |addrs| == 0 then None
    else if '.' in addrs[0].text then Some(0)
    else match FirstDotted(addrs[1..])
      case None => None
      case Some(k) => Some(k + 1)
  }

  /** What ParseIPMask needs to run without a panic: the address it picks
      parses as CIDR, so it has a mask and its text has a '/'. */
  predicate Parses(addrs: seq<Addr>)
  {
    FirstDotted(addrs).Some? ==>
      var a := addrs[FirstDotted(addrs).value];
      a.mask.Some? && '/' in a.text
  }

  /** The text before the first '/'. */
  function BeforeSlash(text: string): (ip: string)
    requires '/' in text
    ensures '/' !in ip
    ensures ip + "/" <= text
  {
    var k := IndexOf(text, '/');
    assert text[..k + 1] == text[..k] + "/";
    text[..k]
  }

  /** The decimal texts of the mask bytes. */
  function MaskParts(mask: seq<byte>): (parts: seq<string>)
    ensures |parts| == |mask|
    ensures forall i :: 0 <= i < |mask| ==> parts[i] == Decimal(mask[i] as nat)
  {
    seq(|mask|, i requires 0 <= i < |mask| => Decimal(mask[i] as nat))
  }

  /** The mask bytes as decimal numbers joined by '.'. */
  function MaskText(mask: seq<byte>): string
  {
    Join(MaskParts(mask), '.')
  }

  /** The dotted mask loses nothing: it splits back into one decimal number
      per mask byte, each denoting that byte. */
  lemma MaskTextRoundTrip(mask: seq<byte>)
    requires |mask| > 0
    ensures |Split(MaskText(mask), '.')| == |mask|
    ensures forall i :: 0 <= i < |mask| ==>
              var part := Split(MaskText(mask), '.')[i];
              (forall k :: 0 <= k < |part| ==> IsDigit(part[k])) && DecimalValue(part) == mask[i] as nat
  {
    var parts := MaskParts(mask);
    forall i | 0 <= i < |parts| ensures '.' !in parts[i] {
      assert forall k :: 0 <= k < |parts[i]| ==> IsDigit(parts[i][k]);
    }
    SplitJoin(parts, '.');
    forall i | 0 <= i < |mask| ensures DecimalValue(parts[i]) == mask[i] as nat {
      DecimalRoundTrip(mask[i] as nat);
    }
  }

  /** The status ParseIPMask reports: from the first dotted address, its
      text before '/' and its mask in dotted decimal; two empty strings when
      there is no such address. */
  function IPMaskOf(addrs: seq<Addr>): IPStatus
    requires Parses(addrs)
  {
    match FirstDotted(addrs)
    case None => IPStatus("", "")
    case Some(k) => IPStatus(BeforeSlash(addrs[k].text), MaskText(addrs[k].mask.value))
  }

  /** Without a dotted address both parts are empty; with one, the address
      is a prefix of its text ending just before the first '/'. */
  lemma IPMaskOfShape(addrs: seq<Addr>)
    requires Parses(addrs)
    ensures FirstDotted(addrs).None? <==> (forall i :: 0 <= i < |addrs| ==> '.' !in addrs[i].text)
    ensures FirstDotted(addrs).None? ==> IPMaskOf(addrs) == IPStatus("", "")
    ensures FirstDotted(addrs).Some? ==>
              var a := addrs[FirstDotted(addrs).value];
              '/' !in IPMaskOf(addrs).ip && IPMaskOf(addrs).ip + "/" <= a.text
  {
  }

  /** ParseIPMask: the scan stops at the first dotted address, renders its
      mask bytes one by one with strconv.Itoa and joins them with '.'. */
  method ParseIPMask(addrs: seq<Addr>) returns (status: IPStatus)
    requires Parses(addrs)
    ensures status == IPMaskOf(addrs)
  {
    status := IPStatus("", "");
    var i := 0;
    while i < |addrs|
      invariant 0 <= i <= |addrs|
      invariant forall k :: 0 <= k < i ==> '.' !in addrs[k].text
      invariant status == IPStatus("", "")
    {
      var a := addrs[i];
      if '.' in a.text {
        assert FirstDotted(addrs) == Some(i);
        var val := a.mask.value;
        var s: seq<string> := [];
        for j := 0 to |val|
          invariant s == MaskParts(val[..j])
        {
          assert val[..j + 1][..j] == val[..j];
          s := s + [Decimal(val[j] as nat)];
        }
        assert val[..|val|] == val;
        status := IPStatus(a.text[..IndexOf(a.text, '/')], Join(s, '.'));
        return;
      }
      i := i + 1;
    }
  }
}
