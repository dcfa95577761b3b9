/**
 * The labels of one wireless peer's metrics and the count of peers that
 * report extra details. A peer is one decoded object of the station list;
 * its optional `remote` object holds what the peer reports about itself.
 */
module Peers {
  import opened Wrappers
  import opened DictX

  type Object = map<string, Json>

  datatype LabelError =
    | RemoteNotObject       // the peer's `remote` is not a dictionary, so `.get` on it fails
    | HostnameNotPrintable  // `str()` of a value this model does not print

  /**
   * The labels a peer adds. The report is the peer's `remote` object, or an
   * empty dictionary when it has none. The MAC and last IP addresses are read
   * with `DictX` indexing, so a missing one is an empty `DictX`. The hostname
   * is the report's `hostname`, else the peer's `name`, else the empty string,
   * converted to text. Platform and version are added only when the report
   * holds truthy ones.
   */
  function RemoteLabels(peer: Object): (r: Result<Object, LabelError>)
    ensures var report := if "remote" in peer then peer["remote"] else Empty;
      var hostname := if report.JObject? && "hostname" in report.fields then report.fields["hostname"]
                      else if "name" in peer then peer["name"] else JString("");
      && (r.Err? <==> !report.JObject? || Str(hostname).None?)
      && (r.Err? ==> (r.error == RemoteNotObject <==> !report.JObject?))
      && (r.Ok? ==>
        && "remote_mac" in r.value && "remote_lastip" in r.value && "remote_hostname" in r.value
        && r.value["remote_mac"] == Index(peer, "mac")
        && r.value["remote_lastip"] == Index(peer, "lastip")
        && r.value["remote_hostname"] == JString(Str(hostname).value)
        && ("remote_platform" in r.value <==> "platform" in report.fields && Truthy(report.fields["platform"]))
        && ("remote_platform" in r.value ==> r.value["remote_platform"] == report.fields["platform"])
        && ("remote_version" in r.value <==> "version" in report.fields && Truthy(report.fields["version"]))
        && ("remote_version" in r.value ==> r.value["remote_version"] == report.fields["version"])
        && r.value.Keys <= {"remote_mac", "remote_lastip", "remote_hostname", "remote_platform", "remote_version"})
  {
    var report := if "remote" in peer then peer["remote"] else Empty;
    match report
    case JObject(fields) =>
      var hostname := if "hostname" in fields then fields["hostname"]
                      else if "name" in peer then peer["name"] else JString("");
      (match Str(hostname)
       case None => Err(HostnameNotPrintable)
       case Some(text) =>
         var base := map["remote_mac" := Index(peer, "mac"),
                         "remote_lastip" := Index(peer, "lastip"),
                         "remote_hostname" := JString(text)];
         var platform := if "platform" in fields then fields["platform"] else JNull;
         var withPlatform := if Truthy(platform) then base["remote_platform" := platform] else base;
         var version := if "version" in fields then fields["version"] else JNull;
         Ok(if Truthy(version) then withPlatform["remote_version" := version] else withPlatform))
    case _ => Err(RemoteNotObject)
  }

  /**
   * The labels of a peer's metrics: a copy of the device's labels updated
   * with the peer's, so a peer label overrides a device label of the same
   * name and every other device label is kept.
   */
  function PeerLabels(device: Object, peer: Object): (r: Result<Object, LabelError>)
    ensures r.Ok? <==> RemoteLabels(peer).Ok?
    ensures r.Ok? ==> r.value.Keys == device.Keys + RemoteLabels(peer).value.Keys
    ensures r.Ok? ==> forall k :: k in RemoteLabels(peer).value ==> r.value[k] == RemoteLabels(peer).value[k]
    ensures r.Ok? ==> forall k :: k in device && k !in RemoteLabels(peer).value ==> r.value[k] == device[k]
  {
    match RemoteLabels(peer)
    case Ok(own) => Ok(device + own)
    case Err(e) => Err(e)
  }

  /** A peer that reports nothing is labelled by its `name`, without platform or version. */
  lemma SilentPeerUsesName(device: Object, peer: Object, name: string)
    requires "remote" !in peer && "name" in peer && peer["name"] == JString(name)
    ensures var r := PeerLabels(device, peer);
      r.Ok? && r.value["remote_hostname"] == JString(name)
      && "remote_platform" !in r.value - device.Keys && "remote_version" !in r.value - device.Keys
  {
  }

  /** A peer without a MAC address gets an empty `DictX` as that label, which prints as nothing. */
  lemma MissingMacIsBlank(device: Object, peer: Object)
    requires "mac" !in peer && PeerLabels(device, peer).Ok?
    ensures Str(PeerLabels(device, peer).value["remote_mac"]) == Some("")
  {
  }

  /** The number of peers in the station list whose entry has a `remote` report. */
  function CountReporting(peers: seq<Object>): (n: nat)
    ensures n <= |peers|
    ensures n == 0 <==> forall i :: 0 <= i < |peers| ==> "remote" !in peers[i]
    ensures n == |peers| <==> forall i :: 0 <= i < |peers| ==> "remote" in peers[i]
  {
    if peers == [] then 0
    else (if "remote" in peers[0] then 1 else 0) + CountReporting(peers[1..])
  }

  /** The count over two station lists is the sum of their counts. */
  lemma {:induction false} CountReportingAppend(a: seq<Object>, b: seq<Object>)
    ensures CountReporting(a + b) == CountReporting(a) + CountReporting(b)
    decreases |a|
  {
    if a == [] {
      assert a + b == b;
    } else {
      assert (a + b)[0] == a[0] && (a + b)[1..] == a[1..] + b;
      CountReportingAppend(a[1..], b);
    }
  }
}
