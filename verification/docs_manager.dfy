/** `SwaggerDocsManager`: looking up the configuration of one documented API
    version. Configuration values other than the version key are opaque here
    (type parameter `V`): the manager only moves them around. */
module DocsManager {

  import opened Wrappers
  import opened OrderedMap

  /** One entry of `versions`: its `appVersion` and its other keys, in order. */
  datatype VersionConfig<V> = VersionConfig(appVersion: string, fields: OMap<string, V>)

  /** The package configuration as far as the manager reads it. */
  datatype DocsConfig<V> = DocsConfig(
    title: V,
    description: V,
    defaultVersion: string,
    versions: seq<VersionConfig<V>>)

  /** `filterVersionsConfigs`: the versions whose `appVersion` equals the key,
      in their original order (`array_values` re-indexes them from 0). */
  function FilterVersions<V(!new)>(versions: seq<VersionConfig<V>>, version: string): (r: seq<VersionConfig<V>>)
    ensures |r| <= |versions|
    ensures forall i :: 0 <= i < |r| ==> r[i].appVersion == version
    ensures forall c :: c in r <==> c in versions && c.appVersion == version
  {
    if |versions| == 0 then []
    else
      var rest := FilterVersions(versions[1..], version);
      assert versions == [versions[0]] + versions[1..];
      if versions[0].appVersion == version then [versions[0]] + rest else rest
  }

  /** Filtering works piecewise, so it keeps the relative order of the
      versions it keeps. */
  lemma {:induction false} FilterVersionsAppend<V(!new)>(a: seq<VersionConfig<V>>, b: seq<VersionConfig<V>>, version: string)
    ensures FilterVersions(a + b, version) == FilterVersions(a, version) + FilterVersions(b, version)
    decreases |a|
  {
    if |a| == 0 {
      assert a + b == b;
    } else {
      assert (a + b)[0] == a[0] && (a + b)[1..] == a[1..] + b;
      FilterVersionsAppend(a[1..], b, version);
    }
  }

  /** The first filtered version is the first matching one. */
  lemma {:induction false} FilterVersionsFirst<V(!new)>(versions: seq<VersionConfig<V>>, version: string)
    requires FilterVersions(versions, version) != []
    ensures exists i :: 0 <= i < |versions| && versions[i] == FilterVersions(versions, version)[0]
                        && versions[i].appVersion == version
                        && forall j :: 0 <= j < i ==> versions[j].appVersion != version
    decreases |versions|
  {
    if versions[0].appVersion != version {
      FilterVersionsFirst(versions[1..], version);
      var i :| 0 <= i < |versions[1..]| && versions[1..][i] == FilterVersions(versions[1..], version)[0]
               && versions[1..][i].appVersion == version
               && forall j :: 0 <= j < i ==> versions[1..][j].appVersion != version;
      assert versions[i + 1] == versions[1..][i];
      assert forall j :: 1 <= j < i + 1 ==> versions[j] == versions[1..][j - 1];
    }
  }

  /** `findVersionConfig`: no match gives the empty array (`None`); otherwise
      the first match with `title` and `description` set to the top-level
      values and every other key kept. */
  function FindVersionConfig<V(!new)>(cfg: DocsConfig<V>, version: string): (r: Option<VersionConfig<V>>)
    ensures r.None? <==> forall i :: 0 <= i < |cfg.versions| ==> cfg.versions[i].appVersion != version
    ensures r.Some? ==> r.value.appVersion == version
    ensures r.Some? ==> Get(r.value.fields, "title") == Some(cfg.title)
    ensures r.Some? ==> Get(r.value.fields, "description") == Some(cfg.description)
  {
    var filtered := FilterVersions(cfg.versions, version);
    if filtered == [] then
      assert forall i :: 0 <= i < |cfg.versions| ==> cfg.versions[i] !in filtered;
      None
    else
      var v := filtered[0];
      assert v in filtered;
      Some(VersionConfig(v.appVersion, Put(Put(v.fields, "title", cfg.title), "description", cfg.description)))
  }

  /** The version found is the first matching entry of `versions`, changed
      only in `title` and `description`. */
  lemma FindVersionConfigIsFirstMatch<V(!new)>(cfg: DocsConfig<V>, version: string)
    requires FindVersionConfig(cfg, version).Some?
    ensures var r := FindVersionConfig(cfg, version).value;
            exists i :: 0 <= i < |cfg.versions| && cfg.versions[i].appVersion == version
                        && (forall j :: 0 <= j < i ==> cfg.versions[j].appVersion != version)
                        && forall k :: k != "title" && k != "description" ==>
                                         Get(r.fields, k) == Get(cfg.versions[i].fields, k)
  {
    var f := FilterVersions(cfg.versions, version);
    FilterVersionsFirst(cfg.versions, version);
    var i :| 0 <= i < |cfg.versions| && cfg.versions[i] == f[0] && cfg.versions[i].appVersion == version
             && forall j :: 0 <= j < i ==> cfg.versions[j].appVersion != version;
    var titled := Put(f[0].fields, "title", cfg.title);
    var r := Put(titled, "description", cfg.description);
    assert FindVersionConfig(cfg, version).value.fields == r;
    forall k | k != "title" && k != "description"
      ensures Get(r, k) == Get(cfg.versions[i].fields, k)
    {
      assert Get(r, k) == Get(titled, k);
    }
  }

  /** `getDefaultVersionConfig`: the configuration of the default version. */
  function DefaultVersionConfig<V(!new)>(cfg: DocsConfig<V>): (r: Option<VersionConfig<V>>)
    ensures r.Some? ==> r.value.appVersion == cfg.defaultVersion
    ensures r.None? <==> forall i :: 0 <= i < |cfg.versions| ==> cfg.versions[i].appVersion != cfg.defaultVersion
  {
    FindVersionConfig(cfg, cfg.defaultVersion)
  }

  /** `getAllVersionsConfigs`: the configured versions, untouched. */
  function AllVersionsConfigs<V>(cfg: DocsConfig<V>): (r: seq<VersionConfig<V>>)
    ensures |r| == |cfg.versions|
    ensures forall i :: 0 <= i < |r| ==> r[i] == cfg.versions[i]
  {
    cfg.versions
  }

  /** Every version that can be found is listed among all versions, and every
      listed version key can be found. */
  lemma FindVersionConfigListed<V(!new)>(cfg: DocsConfig<V>, version: string)
    ensures FindVersionConfig(cfg, version).Some? <==>
              exists i :: 0 <= i < |AllVersionsConfigs(cfg)| && AllVersionsConfigs(cfg)[i].appVersion == version
  {
    var all := AllVersionsConfigs(cfg);
    if FindVersionConfig(cfg, version).None? {
      forall i | 0 <= i < |all| ensures all[i].appVersion != version {
        assert all[i] == cfg.versions[i];
      }
    } else {
      var i :| 0 <= i < |cfg.versions| && cfg.versions[i].appVersion == version;
      assert all[i] == cfg.versions[i];
    }
  }
}
