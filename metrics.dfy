/**
 * The two request counters, api_requests_total{method, endpoint, status_code}
 * and signup_requests_total{status_code}, as maps from label values to counts,
 * and the decimal rendering of a status code used as its label.
 */
module Metrics {

  /** Labels of api_requests_total, in declaration order: method, endpoint, status_code. */
  type ApiLabels = (string, string, string)

  /** The endpoint label the signup handler reports. */
  const SignupEndpoint := "/signup"

  predicate IsDigitString(s: string)
  {
    forall i :: 0 <= i < |s| ==> '0' <= s[i] <= '9'
  }

  function DigitChar(d: nat): (c: char)
    requires d < 10
    ensures '0' <= c <= '9' && (c as int) - ('0' as int) == d
  {
    ('0' as int + d) as char
  }

  /** fmt.Sprintf("%d", n) for n >= 0: decimal digits, no leading zero. */
  function Decimal(n: nat): (s: string)
    ensures 0 < |s| && IsDigitString(s)
    ensures 0 < n ==> s[0] != '0'
  {
    if n < 10 then [DigitChar(n)] else Decimal(n / 10) + [DigitChar(n % 10)]
  }

  /** The number a string of decimal digits denotes. */
  function DecimalValue(s: string): nat
    requires IsDigitString(s)
  {
    if s == [] then 0 else DecimalValue(s[..|s| - 1]) * 10 + ((s[|s| - 1] as int) - ('0' as int))
  }

  /** Reading the label back gives the status code. */
  lemma {:induction false} DecimalRoundTrip(n: nat)
    ensures DecimalValue(Decimal(n)) == n
  {
    var s := Decimal(n);
    if n >= 10 {
      DecimalRoundTrip(n / 10);
      assert s[..|s| - 1] == Decimal(n / 10);
    }
  }

  /** Different status codes are counted under different labels. */
  lemma DecimalInjective(a: nat, b: nat)
    ensures Decimal(a) == Decimal(b) <==> a == b
  {
    DecimalRoundTrip(a);
    DecimalRoundTrip(b);
  }

  /** The value of a counter; a label set never used reads as zero. */
  function CountOf<K>(m: map<K, nat>, k: K): nat
  {
    if k in m then m[k] else 0
  }

  /** WithLabelValues(k).Inc(): the child for k is created if need be and goes up by one; no other child moves. */
  function Inc<K(!new)>(m: map<K, nat>, k: K): (r: map<K, nat>)
    ensures r.Keys == m.Keys + {k}
    ensures CountOf(r, k) == CountOf(m, k) + 1
    ensures forall k' :: k' != k ==> CountOf(r, k') == CountOf(m, k')
  {
    m[k := CountOf(m, k) + 1]
  }

  /** Two increments under two different labels leave each label counted once. */
  lemma TwoLabelsCountedOnce(k1: string, k2: string)
    requires k1 != k2
    ensures CountOf(Inc(Inc(map[], k1), k2), k1) == 1 && CountOf(Inc(Inc(map[], k1), k2), k2) == 1
  {
  }

  /** The two counter vectors. */
  class Metrics {
    var apiRequestsTotal: map<ApiLabels, nat>
    var signupRequestsTotal: map<string, nat>

    /** Both vectors start with no children. */
    constructor ()
      ensures apiRequestsTotal == map[] && signupRequestsTotal == map[]
    {
      apiRequestsTotal := map[];
      signupRequestsTotal := map[];
    }

    /** The deferred step of the handler: one increment of each counter, both under the same status code. */
    method Record(httpMethod: string, statusCode: nat)
      modifies this
      ensures signupRequestsTotal == Inc(old(signupRequestsTotal), Decimal(statusCode))
      ensures apiRequestsTotal == Inc(old(apiRequestsTotal), (httpMethod, SignupEndpoint, Decimal(statusCode)))
    {
      var statusLabel := Decimal(statusCode);
      signupRequestsTotal := Inc(signupRequestsTotal, statusLabel);
      apiRequestsTotal := Inc(apiRequestsTotal, (httpMethod, SignupEndpoint, statusLabel));
    }
  }
}
