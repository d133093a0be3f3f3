/**
The manifest that records what a sync produced (internal/content/manifest.go).
*/
module Manifests {

  datatype ManifestDoc = ManifestDoc(slug: string, title: string, file: string, source: string)
  datatype ManifestProject = ManifestProject(slug: string, docs: seq<ManifestDoc>)
  datatype ManifestSource = ManifestSource(
    name: string, ref: string, commit: string, lang: string, topics: seq<string>, projects: seq<ManifestProject>)
  datatype Manifest = Manifest(sources: seq<ManifestSource>)
}
