/** One detected anomaly, and the identity under which it is deduplicated. */
module Anomalies {

  /** `labels` is the rendered, sorted label list; `value` stands for the reading, which is no part of the identity. */
  datatype Anomaly =
    | Metric(tenant: string, service: string, metric: string, labels: string, value: real, severity: string)
    | Log(tenant: string, service: string, signature: string, severity: string, traceIds: seq<string>)

  /** The identity fields of an anomaly. Module Fingerprint relates this to the hashed text. */
  datatype Key =
    | MetricKey(tenant: string, service: string, metric: string, labels: string)
    | LogKey(tenant: string, service: string, signature: string)

  function AnomalyKey(a: Anomaly): Key {
    match a
    case Metric(t, s, m, l, _, _) => MetricKey(t, s, m, l)
    case Log(t, s, g, _, _) => LogKey(t, s, g)
  }

  function Keys(anomalies: seq<Anomaly>): seq<Key> {
    seq(|anomalies|, i requires 0 <= i < |anomalies| => AnomalyKey(anomalies[i]))
  }

  function KeySet(anomalies: seq<Anomaly>): (r: set<Key>)
    ensures forall k :: k in r <==> exists i :: 0 <= i < |anomalies| && AnomalyKey(anomalies[i]) == k
  {
    set i | 0 <= i < |anomalies| :: AnomalyKey(anomalies[i])
  }
}
