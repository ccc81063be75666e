/**
 * The fixed context entities scripts/update_crate.py writes into every
 * crate: the code licence, the metadata licence and the Python release the
 * notebooks are written in.
 */
module Context {
  import opened Values
  import opened Store

  const MIT_ID := "https://spdx.org/licenses/MIT"
  const CC0_ID := "https://creativecommons.org/publicdomain/zero/1.0/"
  const PYTHON_ID := "https://www.python.org/downloads/release/python-31012/"

  const DEFAULT_LICENCE: Props := map[
    "@id" := JStr(MIT_ID),
    "name" := JStr("MIT License"),
    "@type" := JStr("CreativeWork"),
    "url" := JStr("https://spdx.org/licenses/MIT.html")]

  const METADATA_LICENCE: Props := map[
    "@id" := JStr(CC0_ID),
    "name" := JStr("CC0 Public Domain Dedication"),
    "@type" := JStr("CreativeWork"),
    "url" := JStr(CC0_ID)]

  const PYTHON: Props := map[
    "@id" := JStr(PYTHON_ID),
    "version" := JStr("3.10.12"),
    "name" := JStr("Python 3.10.12"),
    "url" := JStr(PYTHON_ID),
    "@type" := JList([JStr("ComputerLanguage"), JStr("SoftwareApplication")])]
}
