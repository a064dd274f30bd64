/**
 * The Hadoop configuration `configure` builds for the job: an empty configuration, every
 * user `hadoopConfig` entry, then three keys the input format sets itself.
 */
module HadoopConf {
  import opened Wrappers

  const DisableCacheKey: string := "fs.hdfs.impl.disable.cache"
  const DefaultFsKey: string := "fs.default.name"
  const InputDirKey: string := "mapreduce.input.fileinputformat.inputdir"

  const DisableCacheValue: string := "true"
  const DefaultFsValue: string := "hdfs://ns1"

  /** The user's settings; a null `hadoopConfig` contributes none. */
  function UserSettings(hadoopConfig: Option<map<string, string>>): map<string, string>
  {
    if hadoopConfig.Some? then hadoopConfig.value else map[]
  }

  /** The keys the input format sets whatever the user asked for. */
  predicate IsForced(key: string)
  {
    key == DisableCacheKey || key == DefaultFsKey || key == InputDirKey
  }

  /**
   * The configuration after `configure`, among the keys this class sets by name: every user
   * entry except the three forced keys keeps its value, the cache is disabled, the default
   * file system is `hdfs://ns1` and the input directory is `path`. CarbonData's own keys for
   * the database, table and projection are not part of this map.
   */
  function JobConf(hadoopConfig: Option<map<string, string>>, path: string): (conf: map<string, string>)
    ensures conf.Keys == UserSettings(hadoopConfig).Keys + {DisableCacheKey, DefaultFsKey, InputDirKey}
    ensures forall key :: key in UserSettings(hadoopConfig) && !IsForced(key) ==> conf[key] == UserSettings(hadoopConfig)[key]
    ensures conf[DisableCacheKey] == DisableCacheValue
    ensures conf[DefaultFsKey] == DefaultFsValue
    ensures conf[InputDirKey] == path
  {
    UserSettings(hadoopConfig)[DisableCacheKey := DisableCacheValue][DefaultFsKey := DefaultFsValue][InputDirKey := path]
  }
}
